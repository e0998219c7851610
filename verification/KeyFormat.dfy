/** `formatKey` of the etcd and DynamoDB adapters: the namespace is put in front of a key that lacks it. */
module KeyFormat {
  datatype Names = Names(namespace: string, separator: string) {
    function Prefix(): string {
      if namespace == "" then "" else namespace + separator
    }
  }

  function FormatKey(names: Names, key: string): string {
    if names.Prefix() <= key then key else names.Prefix() + key
  }

  /** Formatting twice is formatting once, so a formatted key can be handed back to `delete`. */
  lemma {:induction false} FormatIsIdempotent(names: Names, key: string)
    ensures FormatKey(names, FormatKey(names, key)) == FormatKey(names, key)
    ensures names.Prefix() <= FormatKey(names, key)
  {
    assert names.Prefix() + key == names.Prefix() + key && names.Prefix() <= names.Prefix() + key;
  }

  /** Two keys share a row exactly when they are equal or one is the other with the prefix in front. */
  lemma {:induction false} SameRowIff(names: Names, k: string, l: string)
    ensures var p := names.Prefix();
      FormatKey(names, k) == FormatKey(names, l) <==> k == l || (k == p + l && !(p <= l)) || (l == p + k && !(p <= k))
  {
    var p := names.Prefix();
    assert (p + k)[|p|..] == k && (p + l)[|p|..] == l;
  }

  /** Namespace, separator and key, in this order, unless the key begins with both; without a namespace the key. */
  lemma {:induction false} FormattedKeys(namespace: string, separator: string, key: string)
    ensures FormatKey(Names("", separator), key) == key
    ensures namespace != "" && !(namespace + separator <= key) ==>
      FormatKey(Names(namespace, separator), key) == namespace + separator + key
    ensures FormatKey(Names(namespace, separator), if namespace == "" then key else namespace + separator + key) ==
      if namespace == "" then key else namespace + separator + key
  {
  }
}
