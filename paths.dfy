/** String helpers over '/'-delimited status names: Python's `str.split('/')`,
    `'/'.join`, `str.strip()`, `str.startswith` and `str.replace(pat, '')`,
    and the three name helpers built from them. */
module Paths {

  const Sep: char := '/'

  /** Python 2 `str.strip()` on a byte string removes these six characters. */
  predicate IsSpace(c: char) {
    c == ' ' || c == '\t' || c == '\n' || c == '\r' || c == '\U{0B}' || c == '\U{0C}'
  }

  /** Number of separators in `s`. */
  function SepCount(s: string): nat {
    multiset(s)[Sep]
  }

  /** `s.split('/')`: the pieces between separators, empty pieces kept. */
  function Split(s: string): (r: seq<string>)
    ensures |r| >= 1
  {
    if |s| == 0 then [""]
    else
      var rest := Split(s[1..]);
      if s[0] == Sep then [""] + rest
      else [[s[0]] + rest[0]] + rest[1..]
  }

  /** `'/'.join(ps)`; joining no pieces gives the empty string. */
  function Join(ps: seq<string>): string {
    if |ps| == 0 then ""
    else if |ps| == 1 then ps[0]
    else ps[0] + [Sep] + Join(ps[1..])
  }

  /** `s.lstrip()` */
  function LStrip(s: string): (r: string)
    ensures |r| <= |s| && r == s[|s| - |r|..]
    ensures forall i :: 0 <= i < |s| - |r| ==> IsSpace(s[i])
    ensures r == [] || !IsSpace(r[0])
  {
    if |s| > 0 && IsSpace(s[0]) then LStrip(s[1..]) else s
  }

  /** `s.rstrip()` */
  function RStrip(s: string): (r: string)
    ensures |r| <= |s| && r == s[..|r|]
    ensures forall i :: |r| <= i < |s| ==> IsSpace(s[i])
    ensures r == [] || !IsSpace(r[|r| - 1])
  {
    if |s| > 0 && IsSpace(s[|s| - 1]) then RStrip(s[..|s| - 1]) else s
  }

  /** `s.strip()` */
  function Strip(s: string): string {
    RStrip(LStrip(s))
  }

  /** `s.startswith(p)`: a plain character prefix, with no separator boundary. */
  predicate StartsWith(s: string, p: string) {
    p <= s
  }

  /** `s.replace(pat, '')`: every non-overlapping occurrence of `pat`, found
      left to right, is removed; an empty `pat` leaves `s` as it is. */
  function RemoveAll(s: string, pat: string): (r: string)
    ensures |r| <= |s|
    decreases |s|
  {
    if |pat| == 0 || |s| == 0 then s
    else if pat <= s then RemoveAll(s[|pat|..], pat)
    else [s[0]] + RemoveAll(s[1..], pat)
  }

  /** True when `pat` occurs somewhere inside `s`. */
  predicate Occurs(s: string, pat: string) {
    exists i :: 0 <= i <= |s| - |pat| && pat <= s[i..]
  }

  function Last(ps: seq<string>): string
    requires |ps| > 0
  {
    ps[|ps| - 1]
  }

  /** get_nice_name: the last '/'-piece. */
  function NiceName(name: string): string {
    Last(Split(name))
  }

  /** remove_parent_name: the pieces from index 2 on, re-joined and stripped. */
  function RemoveParentName(name: string): string {
    var ps := Split(name);
    Strip(Join(if |ps| <= 2 then [] else ps[2..]))
  }

  /** get_parent_name: every piece but the last, re-joined and stripped. */
  function ParentName(name: string): string {
    var ps := Split(name);
    Strip(Join(ps[..|ps| - 1]))
  }

  // ---------------------------------------------------------------------
  // Split and Join

  lemma {:induction false} SplitPiecesHaveNoSep(s: string)
    ensures forall k :: 0 <= k < |Split(s)| ==> Sep !in Split(s)[k]
  {
    if |s| > 0 {
      SplitPiecesHaveNoSep(s[1..]);
    }
  }

  /** A name splits into one more piece than it has separators. */
  lemma {:induction false} SplitCount(s: string)
    ensures |Split(s)| == SepCount(s) + 1
  {
    if |s| > 0 {
      SplitCount(s[1..]);
      assert s == [s[0]] + s[1..];
      assert multiset(s) == multiset([s[0]]) + multiset(s[1..]);
    }
  }

  /** Joining the pieces of a split gives back the name. */
  lemma {:induction false} JoinSplit(s: string)
    ensures Join(Split(s)) == s
  {
    if |s| > 0 {
      var rest := Split(s[1..]);
      JoinSplit(s[1..]);
      if s[0] == Sep {
        assert Split(s)[1..] == rest;
      } else if |rest| == 1 {
        assert Split(s) == [[s[0]] + rest[0]];
      } else {
        var ps := Split(s);
        assert ps[1..] == rest[1..];
        assert Join(rest) == rest[0] + [Sep] + Join(rest[1..]);
        assert Join(ps) == [s[0]] + rest[0] + [Sep] + Join(rest[1..]);
      }
    }
  }

  /** Splitting a join of separator-free pieces gives back the pieces. */
  lemma {:induction false} SplitJoin(ps: seq<string>)
    requires |ps| >= 1
    requires forall k :: 0 <= k < |ps| ==> Sep !in ps[k]
    ensures Split(Join(ps)) == ps
  {
    if |ps| == 1 {
      SplitNoSep(ps[0]);
    } else {
      SplitJoin(ps[1..]);
      SplitPrefix(ps[0], Join(ps[1..]));
      assert [ps[0]] + ps[1..] == ps;
    }
  }

  lemma {:induction false} SplitNoSep(s: string)
    requires Sep !in s
    ensures Split(s) == [s]
  {
    if |s| > 0 {
      SplitNoSep(s[1..]);
      assert [s[0]] + s[1..] == s;
    }
  }

  lemma {:induction false} SplitPrefix(a: string, t: string)
    requires Sep !in a
    ensures Split(a + [Sep] + t) == [a] + Split(t)
  {
    if |a| == 0 {
      assert a + [Sep] + t == [Sep] + t;
      assert (a + [Sep] + t)[1..] == t;
    } else {
      var s := a + [Sep] + t;
      assert s[0] == a[0] && s[1..] == a[1..] + [Sep] + t;
      SplitPrefix(a[1..], t);
      assert [a[0]] + a[1..] == a;
    }
  }

  /** Joining a non-trivial list splits off its last piece after a separator. */
  lemma {:induction false} JoinLast(ps: seq<string>)
    requires |ps| >= 2
    ensures Join(ps) == Join(ps[..|ps| - 1]) + [Sep] + Last(ps)
  {
    if |ps| > 2 {
      JoinLast(ps[1..]);
      assert ps[1..][..|ps| - 2] == ps[..|ps| - 1][1..];
    }
  }

  // ---------------------------------------------------------------------
  // The name helpers

  /** get_nice_name(n) is the part of `n` after its last separator: a suffix
      of `n` with no separator in it, preceded by a separator unless it is the
      whole name. */
  lemma NiceNameIsLastSegment(n: string)
    ensures Sep !in NiceName(n)
    ensures |NiceName(n)| <= |n| && n[|n| - |NiceName(n)|..] == NiceName(n)
    ensures Sep in n <==> |NiceName(n)| < |n|
    ensures |NiceName(n)| < |n| ==> n[|n| - |NiceName(n)| - 1] == Sep
  {
    var ps := Split(n);
    SplitPiecesHaveNoSep(n);
    JoinSplit(n);
    SplitCount(n);
    if |ps| >= 2 {
      JoinLast(ps);
      var head := Join(ps[..|ps| - 1]);
      assert n == head + [Sep] + Last(ps);
      assert n[|head|] == Sep;
      assert Sep in n;
    } else {
      assert ps == [ps[0]];
      assert n == ps[0];
    }
  }

  /** get_parent_name(n) + '/' + get_nice_name(n) == n whenever `n` has a
      separator and the part before its last separator has no surrounding
      whitespace (so the `strip()` removes nothing). */
  lemma ParentNiceRoundTrip(n: string)
    requires Sep in n
    requires var h := Join(Split(n)[..|Split(n)| - 1]);
             h == [] || (!IsSpace(h[0]) && !IsSpace(h[|h| - 1]))
    ensures ParentName(n) + [Sep] + NiceName(n) == n
  {
    var ps := Split(n);
    SplitCount(n);
    assert multiset(n)[Sep] > 0;
    JoinSplit(n);
    JoinLast(ps);
    StripUnchanged(Join(ps[..|ps| - 1]));
  }

  /** The round trip needs the condition on the parent part: a name with no
      surrounding whitespace can still lose a space before its last separator. */
  lemma SplitSample()
    ensures Split("/a /b") == ["", "a ", "b"]
  {
    assert "/a /b" == "" + [Sep] + "a /b";
    SplitPrefix("", "a /b");
    assert "a /b" == "a " + [Sep] + "b";
    SplitPrefix("a ", "b");
    SplitNoSep("b");
  }

  lemma ParentNiceRoundTripNeedsInnerCondition()
    ensures ParentName("/a /b") + [Sep] + NiceName("/a /b") != "/a /b"
  {
    var n := "/a /b";
    var ps := Split(n);
    SplitSample();
    assert ps[..|ps| - 1] == ["", "a "];
    JoinStripSample();
    assert |ParentName(n)| == 2;
    assert NiceName(n) == "b";
    assert |ParentName(n) + [Sep] + NiceName(n)| == 4;
  }

  lemma JoinStripSample()
    ensures |Strip(Join(["", "a "]))| == 2
  {
    var h := Join(["", "a "]);
    assert h == "/a " by {
      assert Join(["", "a "]) == "" + [Sep] + Join(["a "]);
    }
    assert LStrip(h) == h;
    assert RStrip(h) == RStrip(h[..2]);
    assert RStrip(h[..2]) == h[..2];
  }

  /** remove_parent_name(n): with at least three pieces, `n` is its first two
      pieces, a separator, and the re-joined rest, which is returned stripped;
      with fewer pieces the result is empty. */
  lemma RemoveParentNameSegments(n: string)
    ensures |Split(n)| <= 2 ==> RemoveParentName(n) == ""
    ensures |Split(n)| > 2 ==>
      n == Split(n)[0] + [Sep] + Split(n)[1] + [Sep] + Join(Split(n)[2..]) &&
      RemoveParentName(n) == Strip(Join(Split(n)[2..]))
  {
    var ps := Split(n);
    JoinSplit(n);
    if |ps| > 2 {
      var rest := Join(ps[2..]);
      assert Join(ps[1..]) == ps[1] + [Sep] + rest by {
        assert ps[1..][1..] == ps[2..];
      }
      assert n == ps[0] + [Sep] + (ps[1] + [Sep] + rest);
      assert ps[0] + [Sep] + (ps[1] + [Sep] + rest) == ps[0] + [Sep] + ps[1] + [Sep] + rest;
    } else {
      assert Join([]) == "";
    }
  }

  /** The result of strip() is the slice s[i..j] of its input, where
      everything before `i` and from `j` on is whitespace; the slice itself
      starts and ends with non-whitespace. */
  lemma StripIsTrimmedSlice(s: string) returns (i: nat, j: nat)
    ensures i <= j <= |s| && Strip(s) == s[i..j]
    ensures forall k :: 0 <= k < i ==> IsSpace(s[k])
    ensures forall k :: j <= k < |s| ==> IsSpace(s[k])
    ensures i < j ==> !IsSpace(s[i]) && !IsSpace(s[j - 1])
  {
    var l := LStrip(s);
    var r := RStrip(l);
    i, j := TrimmedSlice(s, l, r);
  }

  /** The slice argument behind StripIsTrimmedSlice, on plain strings: a
      whitespace-free-ended prefix `r` of a suffix `l` of `s`. */
  lemma TrimmedSlice(s: string, l: string, r: string) returns (i: nat, j: nat)
    requires |l| <= |s| && l == s[|s| - |l|..]
    requires forall k :: 0 <= k < |s| - |l| ==> IsSpace(s[k])
    requires |r| <= |l| && r == l[..|r|]
    requires forall k :: |r| <= k < |l| ==> IsSpace(l[k])
    requires r == [] || (!IsSpace(r[0]) && !IsSpace(r[|r| - 1]))
    ensures i == |s| - |l| && j == i + |r| && j <= |s| && r == s[i..j]
    ensures forall k :: j <= k < |s| ==> IsSpace(s[k])
    ensures i < j ==> !IsSpace(s[i]) && !IsSpace(s[j - 1])
  {
    i := |s| - |l|;
    j := i + |r|;
    forall k | j <= k < |s| ensures IsSpace(s[k]) {
      assert l[k - i] == s[k];
    }
    if i < j {
      assert r[0] == s[i] && r[|r| - 1] == s[j - 1];
    }
  }

  lemma StripUnchanged(s: string)
    requires s == [] || (!IsSpace(s[0]) && !IsSpace(s[|s| - 1]))
    ensures Strip(s) == s
  {
  }

  // ---------------------------------------------------------------------
  // str.replace(pat, '')

  /** When `pat` does not occur in `s`, removing it changes nothing. */
  lemma {:induction false} RemoveAllAbsent(s: string, pat: string)
    requires !Occurs(s, pat)
    ensures RemoveAll(s, pat) == s
    decreases |s|
  {
    if |pat| > 0 && |s| > 0 {
      assert !(pat <= s[0..]);
      assert s[0..] == s;
      assert !Occurs(s[1..], pat) by {
        forall i | 0 <= i <= |s[1..]| - |pat| ensures !(pat <= s[1..][i..]) {
          assert s[1..][i..] == s[i + 1..];
        }
      }
      RemoveAllAbsent(s[1..], pat);
    }
  }

  /** A child name that starts with the parent name loses that prefix (and any
      later occurrence of the parent name) under strip_child. */
  lemma RemoveAllPrefix(parent: string, rest: string)
    requires |parent| > 0
    ensures RemoveAll(parent + rest, parent) == RemoveAll(rest, parent)
  {
    assert parent <= parent + rest;
    assert (parent + rest)[|parent|..] == rest;
  }
}
