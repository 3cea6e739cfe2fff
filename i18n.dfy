/**
 * The `i18n` service: `l(key)` looks a message up in the page's translation
 * table.
 */
module I18n {

  /** The text shown for a key that has no translation. */
  function Placeholder(key: string): string {
    "(no translation for " + key + ")"
  }

  /** `l(key)`: the translation when the table holds a non-empty one (the
      service tests the entry's truthiness, so an empty string counts as
      missing), and the placeholder naming the key otherwise. */
  function Translate(translation: map<string, string>, key: string): (r: string)
    ensures r != ""
    ensures key in translation && translation[key] != "" ==> r == translation[key]
    ensures !(key in translation && translation[key] != "") ==> r == Placeholder(key)
  {
    if key in translation && translation[key] != "" then translation[key]
    else Placeholder(key)
  }

  /** The placeholder names the missing key: the key can be read back from it,
      so two missing keys never show the same text. */
  lemma PlaceholderNamesKey(key: string)
    ensures |Placeholder(key)| == |key| + 21
    ensures Placeholder(key)[20..|Placeholder(key)| - 1] == key
  {
  }

  lemma PlaceholderInjective(k1: string, k2: string)
    requires Placeholder(k1) == Placeholder(k2)
    ensures k1 == k2
  {
    PlaceholderNamesKey(k1);
    PlaceholderNamesKey(k2);
  }
}
