/** Name handling of the directory resolver: the validity test applied to
    every directory entry (name_validity) and the last path component
    (name_extractor). */
module Names {
  import opened Layout

  const Slash: byte := 47  // '/'

  /** A byte of printable ASCII, 32 (space) to 126 ('~'). A byte of 128 or
      more is negative as a signed C `char`, so it fails `name[i] < 32`;
      either signedness rejects the same bytes. */
  predicate Printable(c: byte)
  {
    32 <= c <= 126
  }

  /** The scan of name_validity's loop from byte `i` on: no byte fails
      the test. */
  function PrintableFrom(s: seq<byte>, i: nat): bool
    requires i <= |s|
    decreases |s| - i
  {
    i == |s| || (Printable(s[i]) && PrintableFrom(s, i + 1))
  }

  lemma {:induction false} PrintableFromIff(s: seq<byte>, i: nat)
    requires i <= |s|
    ensures PrintableFrom(s, i) <==> forall j :: i <= j < |s| ==> Printable(s[j])
    decreases |s| - i
  {
    if i < |s| {
      PrintableFromIff(s, i + 1);
    }
  }

  /** name_validity: 0 when the name is valid, -1 otherwise. */
  function NameValidity(name: CString): (r: int)
    ensures r == 0 || r == -1
    ensures r == 0 ==> 0 < |name| <= MaxFileName
  {
    if |name| > MaxFileName then -1
    else if |name| == 0 then -1
    else if !PrintableFrom(name, 0) then -1
    else 0
  }

  /** name_validity accepts exactly the names of 1 to 62 printable bytes,
      and rejects every other name with -1. */
  lemma NameValidityIff(name: CString)
    ensures NameValidity(name) == 0 || NameValidity(name) == -1
    ensures NameValidity(name) == 0 <==>
      0 < |name| <= MaxFileName && forall i :: 0 <= i < |name| ==> Printable(name[i])
  {
    PrintableFromIff(name, 0);
  }

  /** The loop of name_extractor from byte `i` on, the name starting at
      `base` so far: each '/' moves the start past itself. */
  function BaseStart(path: CString, i: nat, base: nat): (start: nat)
    requires base <= i <= |path|
    ensures base <= start <= |path|
    decreases |path| - i
  {
    if i == |path| then base
    else BaseStart(path, i + 1, if path[i] == Slash then i + 1 else base)
  }

  /** name_extractor: the text after the last '/', or the whole path when
      it has none. */
  function NameExtractor(path: CString): (base: CString)
    ensures |base| <= |path|
    ensures Slash !in base
  {
    BaseStartAfterSlash(path, 0, 0);
    path[BaseStart(path, 0, 0)..]
  }

  lemma {:induction false} BaseStartAfterSlash(path: CString, i: nat, base: nat)
    requires base <= i <= |path|
    requires base == 0 || path[base - 1] == Slash
    requires forall j :: base <= j < i ==> path[j] != Slash
    ensures var start := BaseStart(path, i, base);
      && (start == 0 || path[start - 1] == Slash)
      && forall j :: start <= j < |path| ==> path[j] != Slash
    decreases |path| - i
  {
    if i < |path| {
      BaseStartAfterSlash(path, i + 1, if path[i] == Slash then i + 1 else base);
    }
  }

  /** The extracted name is a suffix of the path without '/', and it is
      the whole path or follows a '/'. */
  lemma NameExtractorSuffix(path: CString)
    ensures var base := NameExtractor(path);
      && |base| <= |path| && base == path[|path| - |base|..]
      && Slash !in base
      && (|base| < |path| ==> path[|path| - |base| - 1] == Slash)
  {
    BaseStartAfterSlash(path, 0, 0);
    var start := BaseStart(path, 0, 0);
    var base := NameExtractor(path);
    assert |path| - |base| == start;
    assert forall t :: 0 <= t < |base| ==> base[t] == path[start + t];
  }

  /** The three facts above fix the result: any suffix without '/' that is
      the whole path or follows a '/' is the extracted name. */
  lemma NameExtractorUnique(path: CString, base: CString)
    requires |base| <= |path| && base == path[|path| - |base|..]
    requires Slash !in base
    requires |base| < |path| ==> path[|path| - |base| - 1] == Slash
    ensures base == NameExtractor(path)
  {
    NameExtractorSuffix(path);
    var e := NameExtractor(path);
    if |base| != |e| {
      assert false;
    }
  }
}
