/** The identity of a catalogued face and its external-id form "<name>_<index>". */
module FaceKeys {
  import opened Errors
  import opened Strings

  /** One reference photo: the person's name and which of their photos it is. */
  datatype FaceKey = FaceKey(name: string, index: string)

  /** The external id a key is indexed under: the `"%s_%s"` formatting. */
  function Format(k: FaceKey): (s: string)
    ensures |s| == |k.name| + 1 + |k.index| && s[|k.name|] == '_'
    ensures s[..|k.name|] == k.name && s[|k.name| + 1..] == k.index
  {
    k.name + "_" + k.index
  }

  /** `strings.SplitN(s, "_", 2)`: one part when `s` has no `_`,
      otherwise the text before the first `_` and everything after it. */
  function SplitN2(s: string): (parts: seq<string>)
    ensures |parts| == 1 || |parts| == 2
    ensures |parts| == 2 <==> '_' in s
    ensures |parts| == 1 ==> parts[0] == s
    ensures |parts| == 2 ==> '_' !in parts[0] && parts[0] + "_" + parts[1] == s
  {
    var i := FirstIndex(s, '_');
    if i == |s| then [s]
    else
      assert s[..i] + "_" + s[i + 1..] == s;
      [s[..i], s[i + 1..]]
  }

  /** The error text of a rejected external id. */
  const InvalidSyntax := "Invalid face key syntax"

  /** Go's `(FaceKey, error)` result of parsing. */
  datatype Parsed = Parsed(key: FaceKey, err: Error)

  /** Splits an external id at its first `_`; a string without `_` is
      rejected with the zero key and an error. */
  function ParseFaceKey(s: string): (r: Parsed)
    ensures r.err != Nil <==> '_' !in s
    ensures r.err != Nil ==> r == Parsed(FaceKey("", ""), Failure(InvalidSyntax))
    ensures r.err == Nil ==> '_' !in r.key.name && Format(r.key) == s
  {
    var parts := SplitN2(s);
    if |parts| != 2 then Parsed(FaceKey("", ""), Failure(InvalidSyntax))
    else Parsed(FaceKey(parts[0], parts[1]), Nil)
  }

  /** Formatting then parsing gives the key back exactly when its name has no `_`;
      the index may hold any number of `_`. */
  lemma ParseFormatRoundTrip(k: FaceKey)
    ensures ParseFaceKey(Format(k)) == Parsed(k, Nil) <==> '_' !in k.name
  {
    if '_' !in k.name {
      FirstIndexAfter(k.name, '_', k.index);
      assert Format(k)[..|k.name|] == k.name;
      assert Format(k)[|k.name| + 1..] == k.index;
    }
  }

  /** A name with `_` comes back split at its own first `_`, so the key changes. */
  lemma UnderscoreNameDoesNotRoundTrip()
    ensures Format(FaceKey("a_b", "1")) == "a_b_1"
    ensures ParseFaceKey("a_b_1") == Parsed(FaceKey("a", "b_1"), Nil)
  {
    FirstIndexAfter("a", '_', "b_1");
    assert "a_b_1"[..1] == "a";
    assert "a_b_1"[2..] == "b_1";
  }
}
