/** The three functions of Go's `strings` package the protocol decisions rest
    on, over byte strings: TrimSpace, SplitN(s, " ", 2) and Contains.

    Go's TrimSpace removes every leading and trailing code point for which
    `unicode.IsSpace` holds. Encoded in UTF-8 those are the one-, two- and
    three-byte sequences IsSpace1, IsSpace2 and IsSpace3 accept. The UTF-8
    decoder Go uses from the front (DecodeRune) and from the back
    (DecodeLastRune) yields such a code point exactly when its encoding stands
    at that end of the string, and a malformed byte decodes to U+FFFD, which is
    not a space. So trimming is the repeated removal of these sequences from
    each end. */
module Text {
  import opened Wire

  /** TAB, LF, VT, FF, CR and SPACE: the one-byte spaces. */
  predicate IsSpace1(a: byte) {
    9 <= a <= 13 || a == 32
  }

  /** U+0085 and U+00A0. */
  predicate IsSpace2(a: byte, b: byte) {
    a == 0xC2 && (b == 0x85 || b == 0xA0)
  }

  /** U+1680, U+2000..U+200A, U+2028, U+2029, U+202F, U+205F and U+3000. */
  predicate IsSpace3(a: byte, b: byte, c: byte) {
    || (a == 0xE1 && b == 0x9A && c == 0x80)
    || (a == 0xE2 && b == 0x80 && (0x80 <= c <= 0x8A || c == 0xA8 || c == 0xA9 || c == 0xAF))
    || (a == 0xE2 && b == 0x81 && c == 0x9F)
    || (a == 0xE3 && b == 0x80 && c == 0x80)
  }

  /** Length of the space code point `s` starts with, 0 if none. A one-byte
      space is ASCII and a longer one starts with 0xC2, 0xE1, 0xE2 or 0xE3,
      so no encoding of a space is a prefix of another and at most one applies. */
  function LeadingSpace(s: seq<byte>): (k: nat)
    ensures k <= |s| && k <= 3
  {
    if |s| >= 1 && IsSpace1(s[0]) then 1
    else if |s| >= 2 && IsSpace2(s[0], s[1]) then 2
    else if |s| >= 3 && IsSpace3(s[0], s[1], s[2]) then 3
    else 0
  }

  /** Length of the space code point `s` ends with, 0 if none. A longer space
      ends in a byte >= 0x80 and the two-byte ones have 0xC2 where the
      three-byte ones have 0x80, 0x81 or 0x9A, so at most one applies. */
  function TrailingSpace(s: seq<byte>): (k: nat)
    ensures k <= |s| && k <= 3
  {
    var n := |s|;
    if n >= 1 && IsSpace1(s[n - 1]) then 1
    else if n >= 2 && IsSpace2(s[n - 2], s[n - 1]) then 2
    else if n >= 3 && IsSpace3(s[n - 3], s[n - 2], s[n - 1]) then 3
    else 0
  }

  /** Neither end of `s` holds a space code point. */
  predicate IsTrimmed(s: seq<byte>) {
    LeadingSpace(s) == 0 && TrailingSpace(s) == 0
  }

  /** strings.TrimLeftFunc(s, unicode.IsSpace): the longest suffix of `s`
      that does not start with a space. */
  function TrimLeft(s: seq<byte>): (r: seq<byte>)
    ensures |r| <= |s|
    ensures LeadingSpace(r) == 0
    decreases |s|
  {
    var k := LeadingSpace(s);
    if k == 0 then s else TrimLeft(s[k..])
  }

  /** strings.TrimRightFunc(s, unicode.IsSpace): the longest prefix of `s`
      that does not end with a space. */
  function TrimRight(s: seq<byte>): (r: seq<byte>)
    ensures |r| <= |s|
    ensures TrailingSpace(r) == 0
    decreases |s|
  {
    var k := TrailingSpace(s);
    if k == 0 then s else TrimRight(s[..|s| - k])
  }

  /** strings.TrimSpace: the result has no space at either end, and the
      strings it leaves unchanged are exactly the trimmed ones. */
  function TrimSpace(s: seq<byte>): (r: seq<byte>)
    ensures |r| <= |s|
    ensures IsTrimmed(r)
    ensures r == s <==> IsTrimmed(s)
  {
    var t := TrimLeft(s);
    var r := TrimRight(t);
    TrimRightIsPrefix(t);
    PrefixKeepsLeadingSpace(t, |r|);
    r
  }

  /** `s` is a run of space code points, read from the front. */
  predicate FrontSpaces(s: seq<byte>)
    decreases |s|
  {
    s == [] || (LeadingSpace(s) > 0 && FrontSpaces(s[LeadingSpace(s)..]))
  }

  /** `s` is a run of space code points, read from the back. */
  predicate BackSpaces(s: seq<byte>)
    decreases |s|
  {
    s == [] || (TrailingSpace(s) > 0 && BackSpaces(s[..|s| - TrailingSpace(s)]))
  }

  /** TrimLeft only removes bytes from the front. */
  lemma {:induction false} TrimLeftIsSuffix(s: seq<byte>)
    ensures TrimLeft(s) == s[|s| - |TrimLeft(s)|..]
    decreases |s|
  {
    var k := LeadingSpace(s);
    if k > 0 {
      var t := s[k..];
      TrimLeftIsSuffix(t);
      var m := |TrimLeft(s)|;
      assert t[|t| - m..] == s[|s| - m..];
    }
  }

  /** What TrimLeft removes is a run of space code points. */
  lemma {:induction false} TrimLeftCutsSpaces(s: seq<byte>)
    ensures FrontSpaces(s[..|s| - |TrimLeft(s)|])
    decreases |s|
  {
    var k := LeadingSpace(s);
    if k > 0 {
      var t := s[k..];
      TrimLeftCutsSpaces(t);
      assert TrimLeft(s) == TrimLeft(t);
      FrontSpacesExtend(s, k, |t| - |TrimLeft(t)|, |s| - |TrimLeft(s)|);
    } else {
      assert s[..0] == [];
    }
  }

  /** TrimRight only removes bytes from the back. */
  lemma {:induction false} TrimRightIsPrefix(s: seq<byte>)
    ensures TrimRight(s) == s[..|TrimRight(s)|]
    decreases |s|
  {
    var k := TrailingSpace(s);
    if k > 0 {
      var t := s[..|s| - k];
      TrimRightIsPrefix(t);
      var m := |TrimRight(s)|;
      assert t[..m] == s[..m];
    }
  }

  /** What TrimRight removes is a run of space code points. */
  lemma {:induction false} TrimRightCutsSpaces(s: seq<byte>)
    ensures BackSpaces(s[|TrimRight(s)|..])
    decreases |s|
  {
    var k := TrailingSpace(s);
    if k > 0 {
      var t := s[..|s| - k];
      TrimRightCutsSpaces(t);
      assert TrimRight(s) == TrimRight(t);
      BackSpacesExtend(s, k, |TrimRight(s)|);
    } else {
      assert s[|s|..] == [];
    }
  }

  /** TrimSpace keeps one contiguous slice of its input: the part after what
      TrimLeft removes. */
  lemma {:induction false} TrimSpaceIsSlice(s: seq<byte>)
    ensures |s| - |TrimLeft(s)| + |TrimSpace(s)| <= |s|
    ensures TrimSpace(s) == s[|s| - |TrimLeft(s)|..|s| - |TrimLeft(s)| + |TrimSpace(s)|]
  {
    TrimLeftIsSuffix(s);
    TrimRightIsPrefix(TrimLeft(s));
    assert TrimSpace(s) == TrimRight(TrimLeft(s));
    SliceOfSlice(s, TrimLeft(s), TrimSpace(s), |s| - |TrimLeft(s)|, |s| - |TrimLeft(s)| + |TrimSpace(s)|);
  }

  /** What TrimSpace removes around that slice is a run of space code points
      in front and one at the back. */
  lemma {:induction false} TrimSpaceCutsSpaces(s: seq<byte>)
    ensures |s| - |TrimLeft(s)| + |TrimSpace(s)| <= |s|
    ensures FrontSpaces(s[..|s| - |TrimLeft(s)|])
    ensures BackSpaces(s[|s| - |TrimLeft(s)| + |TrimSpace(s)|..])
  {
    TrimLeftCutsSpaces(s);
    TrimLeftIsSuffix(s);
    TrimRightCutsSpaces(TrimLeft(s));
    assert TrimSpace(s) == TrimRight(TrimLeft(s));
    BackOfSuffix(s, TrimLeft(s), |TrimSpace(s)|, |s| - |TrimLeft(s)| + |TrimSpace(s)|);
  }

  /** A prefix `r` of a suffix `t` of `s` is a slice of `s`. */
  lemma SliceOfSlice(s: seq<byte>, t: seq<byte>, r: seq<byte>, i: nat, j: nat)
    requires |t| <= |s| && t == s[|s| - |t|..] && i == |s| - |t|
    requires |r| <= |t| && r == t[..|r|] && j == i + |r|
    ensures i <= j <= |s| && r == s[i..j]
  {
  }

  /** What follows the first `n` bytes of a suffix `t` of `s` is what
      follows the same bytes in `s`. */
  lemma BackOfSuffix(s: seq<byte>, t: seq<byte>, n: nat, j: nat)
    requires |t| <= |s| && t == s[|s| - |t|..] && n <= |t|
    requires j == |s| - |t| + n && BackSpaces(t[n..])
    ensures j <= |s| && BackSpaces(s[j..])
  {
    assert t[n..] == s[j..];
  }

  /** A run of spaces after the space `s` starts with extends to a run from
      the front of `s`. */
  lemma FrontSpacesExtend(s: seq<byte>, k: nat, n: nat, p: nat)
    requires 0 < k == LeadingSpace(s) && n <= |s| - k && p == n + k
    requires FrontSpaces(s[k..][..n])
    ensures p <= |s| && FrontSpaces(s[..p])
  {
    PrefixSameLeadingSpace(s, p);
    assert s[..p][k..] == s[k..][..n];
  }

  /** A run of spaces before the space `s` ends with extends to a run up to
      the back of `s`. */
  lemma BackSpacesExtend(s: seq<byte>, k: nat, m: nat)
    requires 0 < k == TrailingSpace(s) && m <= |s| - k
    requires BackSpaces(s[..|s| - k][m..])
    ensures BackSpaces(s[m..])
  {
    SuffixSameTrailingSpace(s, m);
    assert s[m..][..|s| - m - k] == s[..|s| - k][m..];
  }

  /** A prefix that keeps the space code point `t` starts with starts with it too. */
  lemma PrefixSameLeadingSpace(t: seq<byte>, n: nat)
    requires LeadingSpace(t) <= n <= |t|
    ensures LeadingSpace(t[..n]) == LeadingSpace(t)
  {
  }

  /** A suffix that keeps the space code point `t` ends with ends with it too. */
  lemma SuffixSameTrailingSpace(t: seq<byte>, n: nat)
    requires n <= |t| - TrailingSpace(t)
    ensures TrailingSpace(t[n..]) == TrailingSpace(t)
  {
  }

  /** A prefix of a string that does not start with a space does not either. */
  lemma PrefixKeepsLeadingSpace(t: seq<byte>, n: nat)
    requires n <= |t| && LeadingSpace(t) == 0
    ensures LeadingSpace(t[..n]) == 0
  {
  }

  /** A suffix of a string that does not end with a space does not either. */
  lemma SuffixKeepsTrailingSpace(t: seq<byte>, n: nat)
    requires n <= |t| && TrailingSpace(t) == 0
    ensures TrailingSpace(t[n..]) == 0
  {
  }

  /** Appending one ASCII byte to a non-empty string leaves its leading
      space where it was: every longer space ends in a byte >= 0x80. */
  lemma LeadingSpaceAppendAscii(s: seq<byte>, b: byte)
    requires s != [] && b < 0x80
    ensures LeadingSpace(s + [b]) == LeadingSpace(s)
  {
  }

  /** A suffix that follows an ASCII byte decides on its own whether the whole
      string ends with a space: a longer space never starts or continues with
      an ASCII byte. */
  lemma TrailingSpaceAfterAscii(p: seq<byte>, q: seq<byte>)
    requires p != [] && p[|p| - 1] < 0x80 && q != []
    ensures TrailingSpace(p + q) == TrailingSpace(q)
  {
  }

  lemma {:induction false} TrimLeftAppendAscii(s: seq<byte>, b: byte)
    requires b < 0x80
    ensures TrimLeft(s + [b]) == if TrimLeft(s) == [] then TrimLeft([b]) else TrimLeft(s) + [b]
    decreases |s|
  {
    if s == [] {
      assert s + [b] == [b];
    } else {
      LeadingSpaceAppendAscii(s, b);
      var k := LeadingSpace(s);
      if k > 0 {
        assert (s + [b])[k..] == s[k..] + [b];
        TrimLeftAppendAscii(s[k..], b);
      }
    }
  }

  /** A trailing ASCII space is trimmed away and nothing else changes. */
  lemma TrimRightDropsAsciiSpace(t: seq<byte>, b: byte)
    requires IsSpace1(b)
    ensures TrimRight(t + [b]) == TrimRight(t)
  {
    assert (t + [b])[..|t|] == t;
  }

  /** What Go's TrimSpace does to a line: the terminating LF (or any other
      ASCII space) makes no difference. */
  lemma TrimSpaceIgnoresAsciiSpace(s: seq<byte>, b: byte)
    requires IsSpace1(b)
    ensures TrimSpace(s + [b]) == TrimSpace(s)
  {
    TrimLeftAppendAscii(s, b);
    if TrimLeft(s) == [] {
      assert TrimLeft([b]) == [] by {
        assert [b][1..] == [];
      }
    } else {
      TrimRightDropsAsciiSpace(TrimLeft(s), b);
    }
  }

  /** A string whose first byte is ASCII and not a space is not changed by TrimLeft. */
  lemma TrimLeftKeepsVisibleStart(s: seq<byte>)
    requires s != [] && s[0] < 0x80 && !IsSpace1(s[0])
    ensures TrimLeft(s) == s
  {
    assert LeadingSpace(s) == 0 by {
      assert s[0] != 0xC2 && s[0] != 0xE1 && s[0] != 0xE2 && s[0] != 0xE3;
    }
  }

  /** First index of byte `b` in `s` (strings.Index with a one-byte separator). */
  function IndexOf(s: seq<byte>, b: byte): (i: Option<nat>)
    ensures i.None? <==> b !in s
    ensures i.Some? ==> i.value < |s| && s[i.value] == b && b !in s[..i.value]
  {
    if s == [] then None
    else if s[0] == b then Some(0)
    else match IndexOf(s[1..], b)
      case None => None
      case Some(j) =>
        assert s[..j + 1] == [s[0]] + s[1..][..j];
        Some(j + 1)
  }

  /** strings.SplitN(s, " ", 2): the whole string when it holds no space,
      otherwise what lies before and after the first space. */
  function SplitAtFirstSpace(s: seq<byte>): (parts: seq<seq<byte>>)
    ensures |parts| == 1 <==> SPACE !in s
    ensures |parts| == 1 ==> parts[0] == s
    ensures |parts| != 1 ==> |parts| == 2 && SPACE !in parts[0] && parts[0] + [SPACE] + parts[1] == s
  {
    match IndexOf(s, SPACE)
    case None => [s]
    case Some(i) =>
      assert s[..i] + [SPACE] + s[i + 1..] == s;
      [s[..i], s[i + 1..]]
  }

  predicate HasPrefix(s: seq<byte>, p: seq<byte>) {
    |p| <= |s| && s[..|p|] == p
  }

  /** strings.Contains(s, sub). */
  predicate Contains(s: seq<byte>, sub: seq<byte>) {
    exists i :: 0 <= i <= |s| && HasPrefix(s[i..], sub)
  }
}
