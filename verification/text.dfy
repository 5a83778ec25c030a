/** String helpers the system gets from the JavaScript runtime:
    `Number.prototype.toString` for non-negative integers, `String.prototype.padStart`,
    `Array.prototype.join`, and `String.prototype.split` on one character, which
    serves as the inverse of `join`. */
module Text {

  predicate IsDigit(c: char) {
    '0' <= c <= '9'
  }

  predicate AllDigits(s: string) {
    forall i :: 0 <= i < |s| ==> IsDigit(s[i])
  }

  function DigitChar(d: int): (c: char)
    requires 0 <= d < 10
    ensures IsDigit(c)
  {
    (('0' as int) + d) as char
  }

  function DigitValue(c: char): (d: int)
    requires IsDigit(c)
    ensures 0 <= d < 10
  {
    (c as int) - ('0' as int)
  }

  /** Decimal rendering of a natural number, most significant digit first. */
  function NatToString(n: nat): (s: string)
    ensures |s| >= 1 && AllDigits(s)
    ensures |s| == 1 <==> n < 10
    ensures s[0] == '0' ==> n == 0
  {
    if n < 10 then [DigitChar(n)] else NatToString(n / 10) + [DigitChar(n % 10)]
  }

  /** The number a string of decimal digits denotes; leading zeros are allowed. */
  function ParseNat(s: string): nat
    requires AllDigits(s)
  {
    if |s| == 0 then 0 else ParseNat(s[..|s| - 1]) * 10 + DigitValue(s[|s| - 1])
  }

  lemma {:induction false} ParseNatToString(n: nat)
    ensures ParseNat(NatToString(n)) == n
  {
    var s := NatToString(n);
    if n >= 10 {
      assert s[..|s| - 1] == NatToString(n / 10);
      ParseNatToString(n / 10);
    }
  }

  /** A leading zero does not change the value of a digit string. */
  lemma {:induction false} ParseNatLeadingZero(s: string)
    requires AllDigits(s)
    ensures AllDigits("0" + s) && ParseNat("0" + s) == ParseNat(s)
  {
    var t := "0" + s;
    if |s| > 0 {
      assert t[..|t| - 1] == "0" + s[..|s| - 1];
      ParseNatLeadingZero(s[..|s| - 1]);
    }
  }

  /** `n` copies of `c`. */
  function Repeat(c: char, n: int): (r: string)
    ensures |r| == if n <= 0 then 0 else n
    ensures forall i :: 0 <= i < |r| ==> r[i] == c
  {
    if n <= 0 then [] else [c] + Repeat(c, n - 1)
  }

  /** `s.padStart(width, fill)`: `s` preceded by enough `fill` characters to reach `width`. */
  function PadStart(s: string, width: nat, fill: char): (r: string)
    ensures |r| == if |s| >= width then |s| else width
    ensures r[|r| - |s|..] == s
    ensures forall i :: 0 <= i < |r| - |s| ==> r[i] == fill
  {
    Repeat(fill, width - |s|) + s
  }

  /** Zero-padding a digit string keeps it a digit string of the same value. */
  lemma {:induction false} PadStartZeros(s: string, width: nat)
    requires AllDigits(s)
    ensures AllDigits(PadStart(s, width, '0'))
    ensures ParseNat(PadStart(s, width, '0')) == ParseNat(s)
    decreases width
  {
    if width > |s| {
      assert PadStart(s, width, '0') == "0" + PadStart(s, width - 1, '0');
      PadStartZeros(s, width - 1);
      ParseNatLeadingZero(PadStart(s, width - 1, '0'));
    } else {
      assert PadStart(s, width, '0') == s;
    }
  }

  /** `parts.join(sep)`: the parts in order with one separator between each
      two; it opens with the first part. */
  function Join(parts: seq<string>, sep: string): (r: string)
    ensures |parts| > 0 ==> |parts[0]| <= |r| && r[..|parts[0]|] == parts[0]
  {
    if |parts| == 0 then ""
    else if |parts| == 1 then parts[0]
    else parts[0] + sep + Join(parts[1..], sep)
  }

  /** A join ends where its last part ends. */
  lemma {:induction false} JoinLength(parts: seq<string>, sep: string)
    requires |parts| > 0
    ensures |Join(parts, sep)| == JoinOffset(parts, sep, |parts| - 1) + |parts[|parts| - 1]|
  {
    if |parts| > 1 {
      JoinLength(parts[1..], sep);
      JoinOffsetShift(parts, sep, |parts| - 1);
      assert parts[1..][|parts| - 2] == parts[|parts| - 1];
    }
  }

  /** Every character of every part survives a join, and nothing but the parts
      and the separator appears. */
  lemma {:induction false} JoinCharacters(parts: seq<string>, sep: string)
    ensures forall i, c :: 0 <= i < |parts| && c in parts[i] ==> c in Join(parts, sep)
    ensures forall c :: c in Join(parts, sep) ==> c in sep || exists i :: 0 <= i < |parts| && c in parts[i]
  {
    if |parts| > 1 {
      var rest := parts[1..];
      JoinCharacters(rest, sep);
      var r := Join(parts, sep);
      assert r == parts[0] + sep + Join(rest, sep);
      forall i, c | 0 <= i < |parts| && c in parts[i]
        ensures c in r
      {
        if i > 0 {
          assert rest[i - 1] == parts[i];
        }
      }
      forall c | c in r && c !in sep && c !in parts[0]
        ensures exists i :: 0 <= i < |parts| && c in parts[i]
      {
        assert c in Join(rest, sep);
        var j :| 0 <= j < |rest| && c in rest[j];
        assert parts[j + 1] == rest[j];
      }
    }
  }

  /** Joining a part in front of a non-empty list puts the separator between. */
  lemma JoinCons(a: string, rest: seq<string>, sep: string)
    requires |rest| > 0
    ensures Join([a] + rest, sep) == a + sep + Join(rest, sep)
  {
    assert ([a] + rest)[0] == a && ([a] + rest)[1..] == rest;
  }

  /** Where part `i` starts in `Join(parts, sep)`: after the earlier parts, each
      followed by one separator. */
  function JoinOffset(parts: seq<string>, sep: string, i: nat): nat
    requires i <= |parts|
  {
    if i == 0 then 0 else JoinOffset(parts, sep, i - 1) + |parts[i - 1]| + |sep|
  }

  lemma {:induction false} JoinOffsetShift(parts: seq<string>, sep: string, i: nat)
    requires 1 <= i <= |parts|
    ensures JoinOffset(parts, sep, i) == |parts[0]| + |sep| + JoinOffset(parts[1..], sep, i - 1)
  {
    if i > 1 {
      JoinOffsetShift(parts, sep, i - 1);
      assert parts[1..][i - 2] == parts[i - 1];
    }
  }

  /** `piece` occurs in `s` starting at position `o`. */
  predicate PieceAt(s: string, o: int, piece: string)
  {
    0 <= o && o + |piece| <= |s| && s[o..o + |piece|] == piece
  }

  /** Part `i` of a join sits at `JoinOffset(parts, sep, i)`. */
  lemma {:induction false} JoinPartAt(parts: seq<string>, sep: string, i: nat)
    requires i < |parts|
    ensures PieceAt(Join(parts, sep), JoinOffset(parts, sep, i), parts[i])
  {
    if |parts| > 1 {
      var rest := parts[1..];
      assert Join(parts, sep) == parts[0] + sep + Join(rest, sep);
      if i == 0 {
        Layout(Join(parts, sep), parts[0], sep, Join(rest, sep));
      } else {
        JoinPartAt(rest, sep, i - 1);
        JoinOffsetShift(parts, sep, i);
        assert rest[i - 1] == parts[i];
        ShiftSlice(parts[0] + sep, Join(rest, sep), JoinOffset(rest, sep, i - 1), parts[i]);
      }
    }
  }

  /** Between part `i` and part `i + 1` of a join lies exactly the separator. */
  lemma {:induction false} JoinSepAfter(parts: seq<string>, sep: string, i: nat)
    requires i + 1 < |parts|
    ensures PieceAt(Join(parts, sep), JoinOffset(parts, sep, i) + |parts[i]|, sep)
  {
    var rest := parts[1..];
    assert Join(parts, sep) == parts[0] + sep + Join(rest, sep);
    if i == 0 {
      Layout(Join(parts, sep), parts[0], sep, Join(rest, sep));
    } else {
      JoinSepAfter(rest, sep, i - 1);
      JoinOffsetShift(parts, sep, i);
      assert rest[i - 1] == parts[i];
      ShiftSlice(parts[0] + sep, Join(rest, sep), JoinOffset(rest, sep, i - 1) + |parts[i]|, sep);
    }
  }

  /** The first part and the separator at the front of `a + sep + t`. */
  lemma Layout(r: string, a: string, sep: string, t: string)
    requires r == a + sep + t
    ensures PieceAt(r, 0, a) && PieceAt(r, |a|, sep)
  {
    assert r[0..|a|] == a && r[|a|..|a| + |sep|] == sep;
  }

  /** A piece found in `t` reappears, shifted by `|h|`, in `h + t`. */
  lemma ShiftSlice(h: string, t: string, o: nat, piece: string)
    requires PieceAt(t, o, piece)
    ensures PieceAt(h + t, |h| + o, piece)
  {
    assert (h + t)[|h| + o..|h| + o + |piece|] == t[o..o + |piece|];
  }

  /** `s.split(c)`: the maximal pieces of `s` between occurrences of `c`. */
  function Split(s: string, c: char): (parts: seq<string>)
    ensures |parts| >= 1
    decreases |s|
  {
    if |s| == 0 then [""]
    else
      var rest := Split(s[1..], c);
      if s[0] == c then [""] + rest else [[s[0]] + rest[0]] + rest[1..]
  }

  lemma {:induction false} SplitWithout(p: string, c: char)
    requires c !in p
    ensures Split(p, c) == [p]
  {
    if |p| > 0 {
      SplitWithout(p[1..], c);
      assert [p[0]] + p[1..] == p;
    }
  }

  lemma {:induction false} SplitAfterPiece(p: string, c: char, t: string)
    requires c !in p
    ensures Split(p + [c] + t, c) == [p] + Split(t, c)
  {
    var s := p + [c] + t;
    if |p| == 0 {
      assert s[0] == c && s[1..] == t;
    } else {
      assert s[0] == p[0] && s[1..] == p[1..] + [c] + t;
      SplitAfterPiece(p[1..], c, t);
      assert [p[0]] + p[1..] == p;
    }
  }

  /** Splitting on a separator that no part contains recovers the joined parts. */
  lemma {:induction false} SplitJoin(parts: seq<string>, c: char)
    requires |parts| >= 1
    requires forall i :: 0 <= i < |parts| ==> c !in parts[i]
    ensures Split(Join(parts, [c]), c) == parts
  {
    if |parts| == 1 {
      SplitWithout(parts[0], c);
    } else {
      SplitJoin(parts[1..], c);
      SplitAfterPiece(parts[0], c, Join(parts[1..], [c]));
      assert [parts[0]] + parts[1..] == parts;
    }
  }
}
