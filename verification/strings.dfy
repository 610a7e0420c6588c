/** String helpers that the window code gets from Python's `str` type:
    `str(n)` for a natural number, `rfind` of one character, and
    splitting on one separator character. */
module Strings {

  /** True if `c` is one of the ten decimal digits. */
  predicate IsDigit(c: char) {
    '0' <= c <= '9'
  }

  function DigitChar(d: nat): (c: char)
    requires d < 10
    ensures IsDigit(c)
  {
    ['0', '1', '2', '3', '4', '5', '6', '7', '8', '9'][d]
  }

  function DigitValue(c: char): (d: nat)
    requires IsDigit(c)
    ensures d < 10
  {
    (c as int - '0' as int) as nat
  }

  lemma DigitRoundTrip(d: nat)
    requires d < 10
    ensures DigitValue(DigitChar(d)) == d
  {
  }

  /** Python's `str(n)` for a natural number: its decimal digits, most
      significant first, with no leading zero. */
  function NatToString(n: nat): (s: string)
    ensures |s| >= 1
    ensures forall i :: 0 <= i < |s| ==> IsDigit(s[i])
    ensures n >= 10 ==> |s| >= 2
    ensures |s| == 1 || s[0] != '0'
    decreases n
  {
    if n < 10 then [DigitChar(n)] else NatToString(n / 10) + [DigitChar(n % 10)]
  }

  /** Reads a string of decimal digits back as a number. */
  function ParseDecimal(s: string): nat
    requires forall i :: 0 <= i < |s| ==> IsDigit(s[i])
  {
    if s == [] then 0 else ParseDecimal(s[..|s| - 1]) * 10 + DigitValue(s[|s| - 1])
  }

  /** Printing a number in decimal and reading it back gives the number. */
  lemma {:induction false} ParseNatToString(n: nat)
    ensures ParseDecimal(NatToString(n)) == n
    decreases n
  {
    var s := NatToString(n);
    if n < 10 {
      DigitRoundTrip(n);
      assert s[..0] == [];
    } else {
      ParseNatToString(n / 10);
      DigitRoundTrip(n % 10);
      assert s[..|s| - 1] == NatToString(n / 10);
    }
  }

  /** Different numbers print differently. */
  lemma NatToStringInjective(a: nat, b: nat)
    requires a != b
    ensures NatToString(a) != NatToString(b)
  {
    ParseNatToString(a);
    ParseNatToString(b);
  }

  /** Python's `s.rfind(c)`: the index of the last `c` in `s`, or -1 when
      `s` holds no `c`. */
  function LastIndexOf(s: string, c: char): (r: int)
    ensures -1 <= r < |s|
    ensures r >= 0 ==> s[r] == c
    ensures forall j :: r < j < |s| ==> s[j] != c
    ensures r == -1 <==> c !in s
  {
    if s == [] then -1
    else if s[|s| - 1] == c then |s| - 1
    else LastIndexOf(s[..|s| - 1], c)
  }

  /** The index of the first `c` in `s`, or `|s|` when there is none. */
  function FirstIndexOf(s: string, c: char): (r: nat)
    ensures r <= |s|
    ensures r < |s| ==> s[r] == c
    ensures forall j :: 0 <= j < r ==> s[j] != c
    ensures r == |s| <==> c !in s
  {
    if s == [] then 0
    else if s[0] == c then 0
    else 1 + FirstIndexOf(s[1..], c)
  }

  /** Python's `s.split(c)` for one separator character. */
  function SplitOn(s: string, c: char): (parts: seq<string>)
    ensures |parts| >= 1
    ensures forall i :: 0 <= i < |parts| ==> c !in parts[i]
    decreases |s|
  {
    var i := FirstIndexOf(s, c);
    if i == |s| then [s] else [s[..i]] + SplitOn(s[i + 1..], c)
  }

  /** Python's `c.join(parts)` for a one-character separator: the parts
      in order, with one `c` between consecutive parts. */
  function JoinWith(parts: seq<string>, c: char): string
  {
    if |parts| == 0 then ""
    else if |parts| == 1 then parts[0]
    else parts[0] + [c] + JoinWith(parts[1..], c)
  }

  /** Splitting a string that starts with a separator-free head and a
      separator yields the head, then the split of the remainder. */
  lemma SplitOnHead(head: string, c: char, rest: string)
    requires c !in head
    ensures SplitOn(head + [c] + rest, c) == [head] + SplitOn(rest, c)
  {
    var j := head + [c] + rest;
    assert j[|head|] == c;
    forall k | 0 <= k < |head|
      ensures j[k] != c
    {
      assert j[k] == head[k];
    }
    assert FirstIndexOf(j, c) == |head|;
    assert j[..|head|] == head;
    assert j[|head| + 1..] == rest;
  }

  /** Splitting a join on its separator gives the parts back, provided no
      part holds the separator and there is at least one part: the join
      puts exactly one separator between consecutive parts and none after
      the last one. */
  lemma {:induction false} SplitOnJoinWith(parts: seq<string>, c: char)
    requires |parts| >= 1
    requires forall i :: 0 <= i < |parts| ==> c !in parts[i]
    ensures SplitOn(JoinWith(parts, c), c) == parts
    decreases |parts|
  {
    assert c !in parts[0];
    if |parts| > 1 {
      SplitOnHead(parts[0], c, JoinWith(parts[1..], c));
      SplitOnJoinWith(parts[1..], c);
      assert parts == [parts[0]] + parts[1..];
    }
  }

  /** The length of a join: the parts' lengths plus one separator between
      each consecutive pair. */
  function TotalLength(parts: seq<string>): nat
  {
    if parts == [] then 0 else |parts[0]| + TotalLength(parts[1..])
  }

  lemma {:induction false} JoinWithLength(parts: seq<string>, c: char)
    requires |parts| >= 1
    ensures |JoinWith(parts, c)| == TotalLength(parts) + |parts| - 1
    decreases |parts|
  {
    if |parts| > 1 {
      JoinWithLength(parts[1..], c);
    }
  }

  /** A slice that lies past `a` in `a + b` is a slice of `b`. */
  lemma SliceAfterPrefix(a: string, b: string, lo: nat, hi: nat)
    requires lo <= hi <= |b|
    ensures (a + b)[|a| + lo..|a| + hi] == b[lo..hi]
  {
  }

  /** Where each part sits in a join: part `i` starts after the parts
      before it and one separator per earlier part, and unless it is the
      last part it is followed by the separator. */
  lemma {:induction false} JoinWithLayout(parts: seq<string>, c: char, i: nat)
    requires i < |parts|
    ensures var j := JoinWith(parts, c);
            var off := TotalLength(parts[..i]) + i;
            && off + |parts[i]| <= |j|
            && j[off..off + |parts[i]|] == parts[i]
            && (i < |parts| - 1 ==> off + |parts[i]| < |j| && j[off + |parts[i]|] == c)
    decreases i
  {
    var j := JoinWith(parts, c);
    if |parts| > 1 {
      var rest := JoinWith(parts[1..], c);
      var h := |parts[0]| + 1;
      assert j == parts[0] + [c] + rest;
      if i == 0 {
        assert j[..|parts[0]|] == parts[0];
      } else {
        var off' := TotalLength(parts[1..][..i - 1]) + i - 1;
        assert TotalLength(parts[..i]) + i == h + off' by {
          assert parts[..i][1..] == parts[1..][..i - 1];
        }
        JoinWithLayout(parts[1..], c, i - 1);
        SliceAfterPrefix(parts[0] + [c], rest, off', off' + |parts[i]|);
      }
    }
  }

  /** `j` lays the parts out in order with one `c` between neighbours:
      part `i` starts after the earlier parts and one separator per
      earlier part, and every part but the last is followed by `c`. */
  predicate LaidOut(j: string, parts: seq<string>, c: char) {
    forall i :: 0 <= i < |parts| ==>
      var off := TotalLength(parts[..i]) + i;
      && off + |parts[i]| <= |j|
      && (forall k :: 0 <= k < |parts[i]| ==> j[off + k] == parts[i][k])
      && (i < |parts| - 1 ==> off + |parts[i]| < |j| && j[off + |parts[i]|] == c)
  }

  /** `JoinWithLayout` for every part at once. */
  lemma JoinWithLayoutAll(parts: seq<string>, c: char)
    ensures LaidOut(JoinWith(parts, c), parts, c)
  {
    var j := JoinWith(parts, c);
    forall i | 0 <= i < |parts|
      ensures var off := TotalLength(parts[..i]) + i;
              && off + |parts[i]| <= |j|
              && (forall k :: 0 <= k < |parts[i]| ==> j[off + k] == parts[i][k])
              && (i < |parts| - 1 ==> off + |parts[i]| < |j| && j[off + |parts[i]|] == c)
    {
      JoinWithLayout(parts, c, i);
      var off := TotalLength(parts[..i]) + i;
      forall k | 0 <= k < |parts[i]|
        ensures j[off + k] == parts[i][k]
      {
        assert j[off..off + |parts[i]|][k] == j[off + k];
      }
    }
  }

  /** True if no character of `s` belongs to `avoid`. */
  predicate Avoids(s: string, avoid: set<char>) {
    forall k :: 0 <= k < |s| ==> s[k] !in avoid
  }

  /** A join holds only the parts' characters and the separator: when
      every part avoids a set of characters that does not contain the
      separator, so does the join. */
  lemma {:induction false} JoinWithAvoids(parts: seq<string>, c: char, avoid: set<char>)
    requires c !in avoid
    requires forall i :: 0 <= i < |parts| ==> Avoids(parts[i], avoid)
    ensures Avoids(JoinWith(parts, c), avoid)
    decreases |parts|
  {
    if |parts| > 1 {
      JoinWithAvoids(parts[1..], c, avoid);
      var j := JoinWith(parts, c);
      var rest := JoinWith(parts[1..], c);
      assert j == parts[0] + [c] + rest;
      assert Avoids(parts[0], avoid);
      forall k | 0 <= k < |j|
        ensures j[k] !in avoid
      {
        if k < |parts[0]| {
          assert j[k] == parts[0][k];
        } else if k > |parts[0]| {
          assert j[k] == rest[k - |parts[0]| - 1];
        }
      }
    }
  }
}
