/** The textual form of the buffer: each value in decimal (as C++'s
    to_string writes an int), the values joined by ',' with no trailing
    separator. Decode is the inverse used to state that the rendering loses
    nothing and adds nothing. */
module Render {

  /** The character of a decimal digit. */
  function Digit(d: int): (c: char)
    requires 0 <= d < 10
    ensures '0' <= c <= '9' && c as int - '0' as int == d
  {
    ('0' as int + d) as char
  }

  /** The value of a decimal digit character (0 for any other character). */
  function DigitValue(c: char): (v: nat)
  {
    if '0' <= c <= '9' then c as int - '0' as int else 0
  }

  predicate IsDigit(c: char)
  {
    '0' <= c <= '9'
  }

  /** Decimal digits of n, most significant first, without leading zeros. */
  function NatToString(n: nat): (s: string)
    ensures |s| >= 1
    ensures forall k :: 0 <= k < |s| ==> IsDigit(s[k])
    ensures |s| > 1 ==> s[0] != '0'
    decreases n
  {
    if n < 10 then [Digit(n)] else NatToString(n / 10) + [Digit(n % 10)]
  }

  /** An int as to_string renders it: a leading '-' for negative values. */
  function IntToString(x: int): (s: string)
    ensures |s| >= 1 && IsDigit(s[|s| - 1])
    ensures forall k :: 0 <= k < |s| ==> s[k] != ','
  {
    if x < 0 then "-" + NatToString(-x) else NatToString(x)
  }

  function ParseNat(s: string): (n: nat)
  {
    if |s| == 0 then 0 else ParseNat(s[..|s| - 1]) * 10 + DigitValue(s[|s| - 1])
  }

  function ParseInt(s: string): (x: int)
  {
    if |s| > 0 && s[0] == '-' then 0 - ParseNat(s[1..]) else ParseNat(s)
  }

  lemma {:induction false} ParseNatToString(n: nat)
    ensures ParseNat(NatToString(n)) == n
    decreases n
  {
    if n >= 10 {
      var s := NatToString(n);
      assert s[..|s| - 1] == NatToString(n / 10);
      ParseNatToString(n / 10);
    }
  }

  /** Reading back a rendered int gives the int. */
  lemma ParseIntToString(x: int)
    ensures ParseInt(IntToString(x)) == x
  {
    if x < 0 {
      assert IntToString(x)[1..] == NatToString(-x);
      ParseNatToString(-x);
    } else {
      ParseNatToString(x);
    }
  }

  /** The values rendered comma-separated, left to right, with no separator
      after the last one; the empty sequence renders as "". */
  function Join(vals: seq<int>): (r: string)
    ensures r == "" <==> vals == []
    ensures r != "" ==> r[0] != ',' && r[|r| - 1] != ','
  {
    if |vals| == 0 then ""
    else if |vals| == 1 then IntToString(vals[0])
    else Join(vals[..|vals| - 1]) + "," + IntToString(vals[|vals| - 1])
  }

  /** The pieces of s between commas; a string without commas is one piece. */
  function Split(s: string): (r: seq<string>)
    ensures |r| >= 1
    decreases |s|
  {
    if |s| == 0 then [""]
    else
      var init := Split(s[..|s| - 1]);
      var c := s[|s| - 1];
      if c == ',' then init + [""]
      else init[..|init| - 1] + [init[|init| - 1] + [c]]
  }

  function ParseEach(pieces: seq<string>): (r: seq<int>)
    ensures |r| == |pieces|
  {
    if |pieces| == 0 then []
    else ParseEach(pieces[..|pieces| - 1]) + [ParseInt(pieces[|pieces| - 1])]
  }

  /** The values a comma-joined text stands for. */
  function Decode(s: string): (vals: seq<int>)
  {
    if s == "" then [] else ParseEach(Split(s))
  }

  lemma {:induction false} SplitNoComma(t: string)
    requires forall k :: 0 <= k < |t| ==> t[k] != ','
    ensures Split(t) == [t]
    decreases |t|
  {
    if |t| > 0 {
      SplitNoComma(t[..|t| - 1]);
      assert t[..|t| - 1] + [t[|t| - 1]] == t;
    }
  }

  /** A comma followed by a comma-free tail adds exactly that tail as a piece. */
  lemma {:induction false} SplitLastPiece(p: string, q: string)
    requires forall k :: 0 <= k < |q| ==> q[k] != ','
    ensures Split(p + "," + q) == Split(p) + [q]
    decreases |q|
  {
    var s := p + "," + q;
    if |q| == 0 {
      assert s[..|s| - 1] == p;
    } else {
      var q' := q[..|q| - 1];
      assert s[..|s| - 1] == p + "," + q';
      SplitLastPiece(p, q');
      assert q' + [q[|q| - 1]] == q;
    }
  }

  lemma ParseEachSnoc(pieces: seq<string>, x: string)
    ensures ParseEach(pieces + [x]) == ParseEach(pieces) + [ParseInt(x)]
  {
    assert (pieces + [x])[..|pieces|] == pieces;
  }

  /** Appending a comma and a rendered value to a non-empty text appends
      exactly that value to what the text decodes to. */
  lemma DecodeSnoc(j: string, x: int)
    requires j != ""
    ensures Decode(j + "," + IntToString(x)) == Decode(j) + [x]
  {
    var t := IntToString(x);
    assert Split(j + "," + t) == Split(j) + [t] by {
      SplitLastPiece(j, t);
    }
    assert ParseEach(Split(j) + [t]) == ParseEach(Split(j)) + [x] by {
      ParseEachSnoc(Split(j), t);
      ParseIntToString(x);
    }
  }

  /** Decoding undoes Join: the text holds exactly the values, in order. */
  lemma {:induction false} DecodeJoin(vals: seq<int>)
    ensures Decode(Join(vals)) == vals
    decreases |vals|
  {
    if |vals| == 1 {
      SplitNoComma(IntToString(vals[0]));
      ParseIntToString(vals[0]);
    } else if |vals| > 1 {
      var init, x := vals[..|vals| - 1], vals[|vals| - 1];
      assert Decode(Join(vals)) == Decode(Join(init)) + [x] by {
        assert Join(vals) == Join(init) + "," + IntToString(x);
        DecodeSnoc(Join(init), x);
      }
      DecodeJoin(init);
      assert init + [x] == vals;
    }
  }
}
