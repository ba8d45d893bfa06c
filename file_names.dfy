/** `sanitize_filename`: the name an uploaded file is stored under. Every
    character outside ASCII letters, digits, '_', '-' and '.' is replaced by
    '_', one for one. */
module FileNames {

  /** The characters the substitution's negated class leaves alone. */
  predicate Kept(c: char)
  {
    ('a' <= c <= 'z') || ('A' <= c <= 'Z') || ('0' <= c <= '9') || c == '_' || c == '-' || c == '.'
  }

  function SanitizeChar(c: char): char
  {
    if Kept(c) then c else '_'
  }

  /** `sanitize_filename`: the same length as the input, every character of
      the result a kept one, kept characters in place and every other one
      (a space, '/', a non-ASCII letter) turned into '_'. */
  function SanitizeFilename(name: string): (r: string)
    ensures |r| == |name|
    ensures forall i :: 0 <= i < |r| ==> Kept(r[i])
    ensures forall i :: 0 <= i < |name| ==> (Kept(name[i]) ==> r[i] == name[i])
    ensures forall i :: 0 <= i < |name| ==> (!Kept(name[i]) ==> r[i] == '_')
  {
    if name == [] then [] else [SanitizeChar(name[0])] + SanitizeFilename(name[1..])
  }

  /** Sanitizing twice gives what sanitizing once gave. */
  lemma SanitizeIdempotent(name: string)
    ensures SanitizeFilename(SanitizeFilename(name)) == SanitizeFilename(name)
  {
    var once := SanitizeFilename(name);
    var twice := SanitizeFilename(once);
    assert forall i :: 0 <= i < |once| ==> twice[i] == once[i];
  }

  /** A name is left unchanged exactly when all of its characters are kept
      ones. */
  lemma SanitizeFixedPoint(name: string)
    ensures SanitizeFilename(name) == name <==> forall i :: 0 <= i < |name| ==> Kept(name[i])
  {
    var r := SanitizeFilename(name);
    if forall i :: 0 <= i < |name| ==> Kept(name[i]) {
      assert forall i :: 0 <= i < |name| ==> r[i] == name[i];
    }
  }

  /** Different names can be stored under the same sanitized name: "a b" and
      "a/b" both become "a_b". */
  lemma SanitizeCollides()
    ensures SanitizeFilename("a b") == SanitizeFilename("a/b") == "a_b"
  {
    assert SanitizeFilename("a b")[1] == '_';
    assert SanitizeFilename("a/b")[1] == '_';
    assert SanitizeFilename("a b")[0] == 'a' && SanitizeFilename("a b")[2] == 'b';
  }
}
