/** The JavaScript string and array operations the agents rely on:
    `String.prototype.split` with a one-character separator,
    `Array.prototype.join`, `Array.prototype.slice` with non-negative
    arguments, and the decimal rendering of an integer inside a template
    literal. */
module Text {
  import opened Outcome

  /** Number of occurrences of `c` in `s`. */
  function Count(s: string, c: char): nat
  {
    if s == [] then 0 else (if s[0] == c then 1 else 0) + Count(s[1..], c)
  }

  /** `s.split(sep)`: the maximal pieces between separators, empty pieces
      kept, no trimming; `"".split(sep)` is `[""]`. */
  function Split(s: string, sep: char): (parts: seq<string>)
    ensures |parts| >= 1
  {
    if s == [] then [""]
    else
      var rest := Split(s[1..], sep);
      if s[0] == sep then [""] + rest
      else [[s[0]] + rest[0]] + rest[1..]
  }

  /** `parts.join(sep)`: `[].join(sep)` is the empty string. */
  function Join(parts: seq<string>, sep: char): string
  {
    if |parts| == 0 then ""
    else if |parts| == 1 then parts[0]
    else parts[0] + [sep] + Join(parts[1..], sep)
  }

  /** `xs.slice(start, end)` for non-negative bounds: both bounds are
      clamped to the length, and an empty range gives the empty array. */
  function Slice<T>(xs: seq<T>, start: nat, end: nat): (r: seq<T>)
    ensures start <= end <= |xs| ==> r == xs[start..end]
    ensures end <= start ==> r == []
    ensures |xs| <= start ==> r == []
  {
    var lo := if start < |xs| then start else |xs|;
    var hi := if end < |xs| then end else |xs|;
    if lo < hi then xs[lo..hi] else []
  }

  lemma {:induction false} SplitLength(s: string, sep: char)
    ensures |Split(s, sep)| == Count(s, sep) + 1
  {
    if s != [] {
      SplitLength(s[1..], sep);
    }
  }

  lemma {:induction false} SplitPiecesFree(s: string, sep: char)
    ensures forall p :: p in Split(s, sep) ==> sep !in p
  {
    if s != [] {
      SplitPiecesFree(s[1..], sep);
      var rest := Split(s[1..], sep);
      assert rest[0] in rest;
      forall p | p in rest[1..] ensures p in rest { }
    }
  }

  lemma {:induction false} JoinSplit(s: string, sep: char)
    ensures Join(Split(s, sep), sep) == s
  {
    if s != [] {
      JoinSplit(s[1..], sep);
      var rest := Split(s[1..], sep);
      if s[0] == sep {
        assert ([""] + rest)[1..] == rest;
        assert s == [sep] + s[1..];
      } else {
        var parts := [[s[0]] + rest[0]] + rest[1..];
        assert parts[1..] == rest[1..];
        if |rest| == 1 {
          assert s == [s[0]] + rest[0];
        } else {
          assert Join(rest, sep) == rest[0] + [sep] + Join(rest[1..], sep);
          assert s == [s[0]] + s[1..];
        }
      }
    }
  }

  /** A first piece free of the separator, then the separator: that piece
      comes first and the rest is split on its own. */
  lemma {:induction false} SplitFirstPiece(p: string, rest: string, sep: char)
    requires sep !in p
    ensures Split(p + [sep] + rest, sep) == [p] + Split(rest, sep)
  {
    var whole := p + [sep] + rest;
    if p == [] {
      assert whole == [sep] + rest;
      assert whole[1..] == rest;
    } else {
      var tail := p[1..] + [sep] + rest;
      assert whole[0] == p[0] && whole[1..] == tail;
      assert forall k :: 0 <= k < |p[1..]| ==> p[1..][k] == p[k + 1];
      SplitFirstPiece(p[1..], rest, sep);
      var r := Split(tail, sep);
      assert r[0] == p[1..] && r[1..] == Split(rest, sep);
      assert [p[0]] + p[1..] == p;
    }
  }

  lemma {:induction false} SplitNoSeparator(s: string, sep: char)
    requires sep !in s
    ensures Split(s, sep) == [s]
  {
    if s != [] {
      assert forall k :: 0 <= k < |s[1..]| ==> s[1..][k] == s[k + 1];
      SplitNoSeparator(s[1..], sep);
      assert [s[0]] + s[1..] == s;
    }
  }

  lemma {:induction false} SplitJoin(parts: seq<string>, sep: char)
    requires |parts| >= 1
    requires forall p :: p in parts ==> sep !in p
    ensures Split(Join(parts, sep), sep) == parts
  {
    if |parts| == 1 {
      assert parts[0] in parts;
      SplitNoSeparator(parts[0], sep);
    } else {
      assert parts[0] in parts;
      forall p | p in parts[1..] ensures sep !in p {
        assert p in parts;
      }
      SplitJoin(parts[1..], sep);
      SplitFirstPiece(parts[0], Join(parts[1..], sep), sep);
      assert [parts[0]] + parts[1..] == parts;
    }
  }

  // Decimal rendering of integers, as `${n}` shows an integral number.

  function DigitChar(d: nat): char
    requires d < 10
  {
    "0123456789"[d]
  }

  function DigitValue(c: char): Option<nat>
  {
    if '0' <= c <= '9' then Some((c - '0') as nat) else None
  }

  function NatToString(n: nat): (s: string)
    ensures |s| >= 1
  {
    if n < 10 then [DigitChar(n)] else NatToString(n / 10) + [DigitChar(n % 10)]
  }

  function IntToString(n: int): string
  {
    if n < 0 then "-" + NatToString(-n) else NatToString(n)
  }

  /** The value of a non-empty string of decimal digits. */
  function ParseNat(s: string): Option<nat>
  {
    if s == [] then None
    else
      var d := DigitValue(s[|s| - 1]);
      if d.None? then None
      else if |s| == 1 then d
      else
        var high := ParseNat(s[..|s| - 1]);
        if high.None? then None else Some(high.value * 10 + d.value)
  }

  /** The value of an optional minus sign followed by decimal digits. */
  function ParseInt(s: string): Option<int>
  {
    if |s| >= 1 && s[0] == '-' then
      var m := ParseNat(s[1..]);
      if m.None? then None else Some(0 - m.value as int)
    else
      var m := ParseNat(s);
      if m.None? then None else Some(m.value)
  }

  lemma {:induction false} ParseNatToString(n: nat)
    ensures ParseNat(NatToString(n)) == Some(n)
    ensures '-' !in NatToString(n)
  {
    var s := NatToString(n);
    assert DigitValue(DigitChar(n % 10)) == Some(n % 10);
    if n >= 10 {
      ParseNatToString(n / 10);
      assert s[..|s| - 1] == NatToString(n / 10);
      assert s[|s| - 1] == DigitChar(n % 10);
    }
  }

  /** The decimal rendering is read back as the same integer, so distinct
      integers are always shown as distinct strings. */
  lemma {:induction false} ParseIntToString(n: int)
    ensures ParseInt(IntToString(n)) == Some(n)
  {
    if n < 0 {
      var d := NatToString(-n);
      assert ParseNat(d) == Some(-n) by {
        ParseNatToString(-n);
      }
      var s := "-" + d;
      assert s[0] == '-' && s[1..] == d;
    } else {
      var d := NatToString(n);
      assert ParseNat(d) == Some(n) && d[0] != '-' by {
        ParseNatToString(n);
        assert d[0] in d;
      }
    }
  }
}
