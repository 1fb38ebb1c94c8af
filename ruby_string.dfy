/** The two pieces of Ruby's String that the extraction rule relies on:
    `String#strip` and slicing by an inclusive range, `str[b..e]`. */
module RubyString {
  import opened Options

  /** The characters `String#strip` removes: NUL and the ASCII space class
      (tab, line feed, vertical tab, form feed, carriage return, space). */
  predicate IsStripSpace(c: char) {
    c as int == 0 || (9 <= c as int <= 13) || c == ' '
  }

  /** `String#lstrip`: drops the leading run of strip-space characters. */
  function TrimLeft(s: string): (r: string)
    ensures |r| <= |s|
    ensures r == [] || !IsStripSpace(r[0])
    ensures forall k :: 0 <= k < |s| - |r| ==> IsStripSpace(s[k])
  {
    if s != [] && IsStripSpace(s[0]) then
      var t := TrimLeft(s[1..]);
      assert forall k :: 1 <= k < |s| - |t| ==> s[k] == s[1..][k - 1];
      t
    else
      s
  }

  /** `String#rstrip`: drops the trailing run of strip-space characters. */
  function TrimRight(s: string): (r: string)
    ensures |r| <= |s|
    ensures r == [] || !IsStripSpace(r[|r| - 1])
    ensures forall k :: |r| <= k < |s| ==> IsStripSpace(s[k])
  {
    if s != [] && IsStripSpace(s[|s| - 1]) then
      var t := TrimRight(s[..|s| - 1]);
      assert forall k :: |t| <= k < |s| - 1 ==> s[k] == s[..|s| - 1][k];
      t
    else
      s
  }

  /** What lstrip returns is a suffix of its input. */
  lemma {:induction false} TrimLeftIsSuffix(s: string)
    ensures TrimLeft(s) == s[|s| - |TrimLeft(s)|..]
  {
    if s != [] && IsStripSpace(s[0]) {
      TrimLeftIsSuffix(s[1..]);
    }
  }

  /** What rstrip returns is a prefix of its input. */
  lemma {:induction false} TrimRightIsPrefix(s: string)
    ensures TrimRight(s) == s[..|TrimRight(s)|]
  {
    if s != [] && IsStripSpace(s[|s| - 1]) {
      TrimRightIsPrefix(s[..|s| - 1]);
    }
  }

  /** `String#strip`: leading run removed first, then the trailing run of what is left. */
  function Strip(s: string): string {
    TrimRight(TrimLeft(s))
  }

  /** Offset in `s` at which `Strip(s)` begins. */
  function StripStart(s: string): nat {
    |s| - |TrimLeft(s)|
  }

  /** A string that neither begins nor ends with strip-space. */
  predicate NoOuterSpace(s: string) {
    s == [] || (!IsStripSpace(s[0]) && !IsStripSpace(s[|s| - 1]))
  }

  /** `r` is `s` with only whitespace cut from either end: a contiguous
      piece starting at `StripStart(s)`, with no outer whitespace left. */
  predicate IsTrimmedFrom(r: string, s: string) {
    var i := StripStart(s);
    NoOuterSpace(r) &&
    i + |r| <= |s| && r == s[i..i + |r|] &&
    (forall k :: 0 <= k < i ==> IsStripSpace(s[k])) &&
    (forall k :: i + |r| <= k < |s| ==> IsStripSpace(s[k]))
  }

  /** What strip returns: a contiguous piece of its input with no outer
      whitespace, and everything cut off on either side is whitespace. */
  lemma StripCharacterization(s: string)
    ensures IsTrimmedFrom(Strip(s), s)
  {
    var t := TrimLeft(s);
    var r := TrimRight(t);
    var i := |s| - |t|;
    TrimLeftIsSuffix(s);
    TrimRightIsPrefix(t);
    assert t == s[i..];
    assert r == t[..|r|];
    assert r == s[i..i + |r|];
    forall k | i + |r| <= k < |s|
      ensures IsStripSpace(s[k])
    {
      assert s[k] == t[k - i];
    }
    if r != [] {
      assert r[0] == t[0];
    }
  }

  /** Trimming the left of `s` stops exactly at the first non-space index `i`. */
  lemma {:induction false} TrimLeftAt(s: string, i: nat)
    requires i <= |s|
    requires forall k :: 0 <= k < i ==> IsStripSpace(s[k])
    requires i == |s| || !IsStripSpace(s[i])
    ensures TrimLeft(s) == s[i..]
  {
    if i > 0 {
      assert IsStripSpace(s[0]);
      assert forall k :: 0 <= k < i - 1 ==> s[1..][k] == s[k + 1];
      TrimLeftAt(s[1..], i - 1);
      assert s[1..][i - 1..] == s[i..];
    }
  }

  /** Trimming the right of `s` stops exactly after the last non-space index `j - 1`. */
  lemma {:induction false} TrimRightAt(s: string, j: nat)
    requires j <= |s|
    requires forall k :: j <= k < |s| ==> IsStripSpace(s[k])
    requires j == 0 || !IsStripSpace(s[j - 1])
    ensures TrimRight(s) == s[..j]
  {
    if j < |s| {
      assert IsStripSpace(s[|s| - 1]);
      var p := s[..|s| - 1];
      assert forall k :: j <= k < |p| ==> p[k] == s[k];
      TrimRightAt(p, j);
      assert p[..j] == s[..j];
    }
  }

  /** Strip is determined by its characterization: whenever `s` splits into
      whitespace, a piece with no outer whitespace, and whitespace, strip
      returns that piece. */
  lemma StripUnique(s: string, i: nat, j: nat)
    requires i <= j <= |s|
    requires forall k :: 0 <= k < i ==> IsStripSpace(s[k])
    requires forall k :: j <= k < |s| ==> IsStripSpace(s[k])
    requires NoOuterSpace(s[i..j])
    ensures Strip(s) == s[i..j]
  {
    if i < j {
      var m := s[i..j];
      assert m[0] == s[i];
      TrimLeftAt(s, i);
      var t := s[i..];
      assert t[j - i - 1] == m[j - i - 1];
      forall k | j - i <= k < |t|
        ensures IsStripSpace(t[k])
      {
        assert t[k] == s[k + i];
      }
      TrimRightAt(t, j - i);
      assert t[..j - i] == m;
    } else {
      TrimLeftAt(s, |s|);
    }
  }

  /** Stripping twice is the same as stripping once. */
  lemma StripIdempotent(s: string)
    ensures Strip(Strip(s)) == Strip(s)
  {
    var r := Strip(s);
    StripCharacterization(s);
    assert r[0..|r|] == r;
    StripUnique(r, 0, |r|);
  }

  /** Start offset of `str[b..e]` for a string of length `n`: a negative
      bound counts from the end. */
  function RangeStart(n: nat, b: int): int {
    if b < 0 then b + n else b
  }

  /** One past the last offset of `str[b..e]` (the range is inclusive),
      clamped to the length. */
  function RangeStop(n: nat, e: int): int {
    var stop := (if e < 0 then e + n else e) + 1;
    if stop > n then n else stop
  }

  /** Ruby `str[b..e]` for an inclusive integer range: nil when the start lies
      outside `0..n`, otherwise the characters from the start up to and
      including the end, an empty string when the end comes before the start. */
  function RangeSlice(s: string, b: int, e: int): (r: Option<string>)
    ensures r.None? <==> RangeStart(|s|, b) < 0 || RangeStart(|s|, b) > |s|
    ensures r.Some? && RangeStop(|s|, e) <= RangeStart(|s|, b) ==> r.value == ""
    ensures r.Some? && RangeStop(|s|, e) > RangeStart(|s|, b) ==>
      |r.value| == RangeStop(|s|, e) - RangeStart(|s|, b)
  {
    var n := |s|;
    var st := RangeStart(n, b);
    if st < 0 || st > n then None
    else
      var stop := RangeStop(n, e);
      var len := if stop - st < 0 then 0 else stop - st;
      Some(s[st..st + len])
  }

  /** A slice that is not nil is the contiguous run of `s` from the start offset. */
  lemma RangeSliceIsSubstring(s: string, b: int, e: int)
    requires RangeSlice(s, b, e).Some?
    ensures
      var st := RangeStart(|s|, b);
      var v := RangeSlice(s, b, e).value;
      0 <= st && st + |v| <= |s| && v == s[st..st + |v|]
  {
  }
}
