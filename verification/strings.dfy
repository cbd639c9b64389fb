/** The few Python string operations the URL parsers and the tile cache names
    use: str.split with a one-character separator, its one-split form, the
    matching join, and str() of an integer. */
module Strings {
  import opened Outcomes

  /** Index of the first occurrence of c in s. */
  function FirstIndex(s: string, c: char): (i: nat)
    requires c in s
    ensures i < |s| && s[i] == c && c !in s[..i]
  {
    if s[0] == c then 0
    else
      assert c in s[1..] by {
        var k :| 0 <= k < |s| && s[k] == c;
        assert s[1..][k - 1] == c;
      }
      var j := FirstIndex(s[1..], c);
      assert s[..j + 1] == [s[0]] + s[1..][..j];
      j + 1
  }

  /** s.split(c): the pieces between occurrences of c; always at least one. */
  function Split(s: string, c: char): (r: seq<string>)
    ensures |r| > 0
  {
    if |s| == 0 then [""]
    else
      var rest := Split(s[1..], c);
      if s[0] == c then [""] + rest else [[s[0]] + rest[0]] + rest[1..]
  }

  /** c.join(parts). */
  function Join(parts: seq<string>, c: char): string
    requires |parts| > 0
  {
    if |parts| == 1 then parts[0] else parts[0] + [c] + Join(parts[1..], c)
  }

  predicate Free(parts: seq<string>, c: char)
  {
    forall k :: 0 <= k < |parts| ==> c !in parts[k]
  }

  /** Joining the pieces back gives the string, and no piece holds the separator. */
  lemma {:induction false} SplitJoin(s: string, c: char)
    ensures Join(Split(s, c), c) == s
    ensures Free(Split(s, c), c)
  {
    if |s| > 0 {
      var rest := Split(s[1..], c);
      SplitJoin(s[1..], c);
      if s[0] == c {
        assert Split(s, c) == [""] + rest;
        assert ([""] + rest)[1..] == rest;
        assert s == [c] + s[1..];
      } else {
        var r := Split(s, c);
        assert r[0] == [s[0]] + rest[0] && r[1..] == rest[1..];
        if |rest| > 1 {
          assert Join(rest, c) == rest[0] + [c] + Join(rest[1..], c);
          assert Join(r, c) == r[0] + [c] + Join(rest[1..], c);
        }
        assert s == [s[0]] + s[1..];
      }
    }
  }

  /** A string without the separator is its own only piece. */
  lemma {:induction false} SplitFree(s: string, c: char)
    requires c !in s
    ensures Split(s, c) == [s]
  {
    if |s| > 0 {
      assert c !in s[1..];
      SplitFree(s[1..], c);
      assert s == [s[0]] + s[1..];
    }
  }

  /** Splitting after a separator-free head. */
  lemma {:induction false} SplitAfter(head: string, c: char, tail: string)
    requires c !in head
    ensures Split(head + [c] + tail, c) == [head] + Split(tail, c)
  {
    var s := head + [c] + tail;
    if |head| == 0 {
      assert s == [c] + tail && s[1..] == tail;
    } else {
      assert s[1..] == head[1..] + [c] + tail;
      assert c !in head[1..];
      SplitAfter(head[1..], c, tail);
      assert [head[0]] + head[1..] == head;
    }
  }

  /** Splitting separator-free pieces joined by the separator gives them back. */
  lemma {:induction false} JoinSplit(parts: seq<string>, c: char)
    requires |parts| > 0 && Free(parts, c)
    ensures Split(Join(parts, c), c) == parts
  {
    if |parts| == 1 {
      SplitFree(parts[0], c);
    } else {
      JoinSplit(parts[1..], c);
      SplitAfter(parts[0], c, Join(parts[1..], c));
      assert parts == [parts[0]] + parts[1..];
    }
  }

  /** Joining two non-empty lists of pieces is joining each and putting the
      separator between them. */
  lemma {:induction false} JoinAppend(p: seq<string>, q: seq<string>, c: char)
    requires |p| > 0 && |q| > 0
    ensures Join(p + q, c) == Join(p, c) + [c] + Join(q, c)
  {
    assert (p + q)[0] == p[0];
    if |p| == 1 {
      assert (p + q)[1..] == q;
    } else {
      assert (p + q)[1..] == p[1..] + q;
      JoinAppend(p[1..], q, c);
    }
  }

  /** Splitting at a separator splits the two sides independently. */
  lemma SplitConcat(a: string, c: char, b: string)
    ensures Split(a + [c] + b, c) == Split(a, c) + Split(b, c)
  {
    var p := Split(a, c);
    var q := Split(b, c);
    SplitJoin(a, c);
    SplitJoin(b, c);
    JoinAppend(p, q, c);
    assert Free(p + q, c) by {
      forall k | 0 <= k < |p + q|
        ensures c !in (p + q)[k]
      {
        if k < |p| {
          assert (p + q)[k] == p[k];
        } else {
          assert (p + q)[k] == q[k - |p|];
        }
      }
    }
    JoinSplit(p + q, c);
  }

  /** There is more than one piece exactly when the separator occurs. */
  lemma SplitMany(s: string, c: char)
    ensures |Split(s, c)| > 1 <==> c in s
  {
    if c in s {
      var i := FirstIndex(s, c);
      assert s == s[..i] + [c] + s[i + 1..];
      SplitAfter(s[..i], c, s[i + 1..]);
    } else {
      SplitFree(s, c);
    }
  }

  /** The two halves of s.split(c, 1). */
  datatype Halves = Halves(before: string, after: string)

  /** s.split(c, 1): None when c does not occur (a one-element list). */
  function SplitOnce(s: string, c: char): Option<Halves>
  {
    if c in s then
      var i := FirstIndex(s, c);
      Some(Halves(s[..i], s[i + 1..]))
    else None
  }

  /** The split is at the first separator: the text before it holds none, and
      the separator rejoins the halves into s; any later separator stays after. */
  lemma SplitOnceHalves(s: string, c: char)
    ensures SplitOnce(s, c).None? <==> c !in s
    ensures SplitOnce(s, c).Some? ==>
              && c !in SplitOnce(s, c).value.before
              && s == SplitOnce(s, c).value.before + [c] + SplitOnce(s, c).value.after
  {
    if c in s {
      var i := FirstIndex(s, c);
      assert s == s[..i] + [c] + s[i + 1..];
    }
  }

  /** The halves are determined: any split of s at a first separator is SplitOnce's. */
  lemma SplitOnceUnique(s: string, c: char, before: string, after: string)
    requires c !in before && s == before + [c] + after
    ensures SplitOnce(s, c) == Some(Halves(before, after))
  {
    assert s[|before|] == c;
    assert c in s;
    var i := FirstIndex(s, c);
    assert s[..i] == before;
    assert s[i + 1..] == after;
  }

  function DigitChar(d: int): char
    requires 0 <= d < 10
  {
    "0123456789"[d]
  }

  /** str(n) for a natural number: decimal, no leading zeros. */
  function NatString(n: nat): string
  {
    if n < 10 then [DigitChar(n)] else NatString(n / 10) + [DigitChar(n % 10)]
  }

  /** str(x): a minus sign before the digits of a negative number. */
  function IntString(x: int): string
  {
    if x < 0 then "-" + NatString(-x) else NatString(x)
  }

  predicate IsDigit(ch: char)
  {
    '0' <= ch <= '9'
  }

  function DigitValue(ch: char): int
    requires IsDigit(ch)
  {
    ch as int - '0' as int
  }

  /** int(s) for a string of decimal digits. */
  function ParseNat(s: string): int
  {
    if |s| == 0 || !IsDigit(s[|s| - 1]) then 0
    else ParseNat(s[..|s| - 1]) * 10 + DigitValue(s[|s| - 1])
  }

  /** int(s) with an optional minus sign. */
  function ParseInt(s: string): int
  {
    if |s| > 0 && s[0] == '-' then -ParseNat(s[1..]) else ParseNat(s)
  }

  lemma DigitRoundTrip(d: int)
    requires 0 <= d < 10
    ensures IsDigit(DigitChar(d)) && DigitValue(DigitChar(d)) == d
  {
  }

  /** Decimal digits only, never empty. */
  lemma {:induction false} NatStringDigits(n: nat)
    ensures |NatString(n)| > 0
    ensures forall k :: 0 <= k < |NatString(n)| ==> IsDigit(NatString(n)[k])
  {
    DigitRoundTrip(n % 10);
    if n >= 10 {
      NatStringDigits(n / 10);
    }
  }

  /** Reading the digits back gives the number. */
  lemma {:induction false} NatStringRoundTrip(n: nat)
    ensures ParseNat(NatString(n)) == n
  {
    DigitRoundTrip(n % 10);
    if n >= 10 {
      NatStringRoundTrip(n / 10);
      var s := NatString(n);
      assert s[..|s| - 1] == NatString(n / 10);
    } else {
      assert NatString(n)[..0] == "";
    }
  }

  /** str(x) contains only digits and a leading minus sign. */
  lemma IntStringChars(x: int)
    ensures |IntString(x)| > 0
    ensures forall k :: 0 <= k < |IntString(x)| ==> IsDigit(IntString(x)[k]) || (k == 0 && IntString(x)[k] == '-')
  {
    if x < 0 {
      NatStringDigits(-x);
      assert forall k :: 1 <= k < |IntString(x)| ==> IntString(x)[k] == NatString(-x)[k - 1];
    } else {
      NatStringDigits(x);
    }
  }

  /** int(str(x)) == x. */
  lemma IntStringRoundTrip(x: int)
    ensures ParseInt(IntString(x)) == x
  {
    if x < 0 {
      var digits := NatString(-x);
      var s := "-" + digits;
      assert s[0] == '-' && s[1..] == digits;
      NatStringRoundTrip(-x);
    } else {
      var s := NatString(x);
      NatStringDigits(x);
      assert IsDigit(s[0]);
      NatStringRoundTrip(x);
    }
  }
}
