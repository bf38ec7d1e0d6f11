/**
 * Values shared by the schedule readers and the station merger: the error
 * outcomes of a pass, and the handful of JavaScript string operations the
 * readers apply to every field of a row (`trim`, `parseInt`, and the numeric
 * coercion `Number(s)` that `s / 1000000` performs).
 */
module Common {

  datatype Option<+T> = None | Some(value: T)

  /** The errors a per-row step can hand to its callback. */
  datatype Error =
    | UnknownRouteId(id: string)      // 'unknown id ' + id
    | NonUniqueStationId(id: string)  // `non-unique station ID ${id}`
    | UnknownStationId(id: string)    // 'unknown station ID ' + id

  /** Outcome of a pass: the accumulator, or the first error met. */
  datatype Result<+T> = Ok(value: T) | Err(error: Error)

  /** The text of the `Error` object the source constructs. */
  function Message(e: Error): string {
    match e
    case UnknownRouteId(id) => "unknown id " + id
    case NonUniqueStationId(id) => "non-unique station ID " + id
    case UnknownStationId(id) => "unknown station ID " + id
  }

  /** The message names both the kind of error and the offending id: different errors never share a text. */
  lemma MessageInjective(e1: Error, e2: Error)
    requires Message(e1) == Message(e2)
    ensures e1 == e2
  {
    var m1, m2 := Message(e1), Message(e2);
    // "non-unique ..." differs from "unknown ..." in its first letter, "unknown id" from "unknown station" in its ninth
    assert m1[0] == m2[0] && m1[8] == m2[8];
    assert e1.id == m1[|m1| - |e1.id|..];
    assert e2.id == m2[|m2| - |e2.id|..];
  }

  /**
   * A pass over `rows`: `step` is applied to each row in order, starting from
   * `acc`, and the first step that fails ends the pass with its error.
   */
  function Fold<A, R>(acc: A, rows: seq<R>, step: (A, R) -> Result<A>): Result<A> {
    if rows == [] then Ok(acc)
    else match Fold(acc, rows[..|rows| - 1], step)
      case Err(e) => Err(e)
      case Ok(a) => step(a, rows[|rows| - 1])
  }

  /** The values `build(row)` of the rows whose key is `k`, in row order. */
  function Contributed<R, V>(rows: seq<R>, key: R -> string, build: R -> V, k: string): seq<V> {
    if rows == [] then []
    else
      var last := rows[|rows| - 1];
      Contributed(rows[..|rows| - 1], key, build, k) + (if key(last) == k then [build(last)] else [])
  }

  /** The pass over the first `n + 1` rows is the pass over the first `n`, then row `n`. */
  lemma FoldPrefix<A, R>(acc: A, rows: seq<R>, n: nat, step: (A, R) -> Result<A>)
    requires n < |rows|
    ensures Fold(acc, rows[..n + 1], step) ==
            match Fold(acc, rows[..n], step)
            case Err(e) => Err(e)
            case Ok(a) => step(a, rows[n])
  {
    assert rows[..n + 1][..n] == rows[..n];
  }

  /**
   * After a prefix that succeeded with `a`, row `n` either extends the
   * successful prefix or, failing, decides the whole pass.
   */
  lemma FoldStep<A, R>(acc: A, rows: seq<R>, n: nat, step: (A, R) -> Result<A>, a: A)
    requires n < |rows| && Fold(acc, rows[..n], step) == Ok(a)
    ensures Fold(acc, rows[..n + 1], step) == step(a, rows[n])
    ensures step(a, rows[n]).Err? ==> Fold(acc, rows, step) == step(a, rows[n])
  {
    FoldPrefix(acc, rows, n, step);
    if step(a, rows[n]).Err? {
      FoldAborts(acc, rows, n + 1, step);
    }
  }

  /** Once the pass has failed on a prefix, the later rows are never looked at. */
  lemma {:induction false} FoldAborts<A, R>(acc: A, rows: seq<R>, n: nat, step: (A, R) -> Result<A>)
    requires n <= |rows| && Fold(acc, rows[..n], step).Err?
    ensures Fold(acc, rows, step) == Fold(acc, rows[..n], step)
    decreases |rows| - n
  {
    if n < |rows| {
      FoldPrefix(acc, rows, n, step);
      FoldAborts(acc, rows, n + 1, step);
    } else {
      assert rows[..n] == rows;
    }
  }

  /**
   * A failed pass failed at one row: every row before it succeeded, and the
   * error of the pass is the error of that row's step.
   */
  lemma {:induction false} FoldFailsAtOneRow<A, R>(acc: A, rows: seq<R>, step: (A, R) -> Result<A>)
    requires Fold(acc, rows, step).Err?
    ensures exists n :: 0 <= n < |rows| && Fold(acc, rows[..n], step).Ok?
                        && step(Fold(acc, rows[..n], step).value, rows[n]) == Fold(acc, rows, step)
  {
    var last := |rows| - 1;
    if Fold(acc, rows[..last], step).Err? {
      FoldFailsAtOneRow(acc, rows[..last], step);
      var n :| 0 <= n < last && Fold(acc, rows[..last][..n], step).Ok?
               && step(Fold(acc, rows[..last][..n], step).value, rows[..last][n]) == Fold(acc, rows[..last], step);
      assert rows[..last][..n] == rows[..n];
    }
  }

  /** The white space and line terminators that `String.prototype.trim` removes. */
  predicate IsSpace(c: char) {
    || c == ' ' || c == '\t' || c == '\n' || c == '\r'
    || c == '\U{000B}' || c == '\U{000C}' || c == '\U{00A0}' || c == '\U{FEFF}'
    || c == '\U{1680}' || ('\U{2000}' <= c <= '\U{200A}')
    || c == '\U{2028}' || c == '\U{2029}' || c == '\U{202F}' || c == '\U{205F}' || c == '\U{3000}'
  }

  function TrimStart(s: string): string {
    if |s| > 0 && IsSpace(s[0]) then TrimStart(s[1..]) else s
  }

  function TrimEnd(s: string): string {
    if |s| > 0 && IsSpace(s[|s| - 1]) then TrimEnd(s[..|s| - 1]) else s
  }

  /** `s.trim()`: `s` without its leading and trailing white space. */
  function Trim(s: string): string {
    TrimEnd(TrimStart(s))
  }

  /** `TrimStart` drops exactly the leading white space. */
  lemma {:induction false} TrimStartSpec(s: string)
    ensures var r := TrimStart(s);
            && |r| <= |s| && r == s[|s| - |r|..]
            && (forall j :: 0 <= j < |s| - |r| ==> IsSpace(s[j]))
            && (r != [] ==> !IsSpace(r[0]))
  {
    if |s| > 0 && IsSpace(s[0]) {
      var t := s[1..];
      TrimStartSpec(t);
      var r := TrimStart(t);
      assert TrimStart(s) == r;
      assert t[|t| - |r|..] == s[|s| - |r|..];
      forall j | 0 <= j < |s| - |r| ensures IsSpace(s[j]) {
        if j > 0 {
          assert s[j] == t[j - 1];
        }
      }
    }
  }

  /** `TrimEnd` drops exactly the trailing white space. */
  lemma {:induction false} TrimEndSpec(s: string)
    ensures var r := TrimEnd(s);
            && |r| <= |s| && r == s[..|r|]
            && (forall j :: |r| <= j < |s| ==> IsSpace(s[j]))
            && (r != [] ==> !IsSpace(r[|r| - 1]))
  {
    if |s| > 0 && IsSpace(s[|s| - 1]) {
      var t := s[..|s| - 1];
      TrimEndSpec(t);
      var r := TrimEnd(t);
      assert TrimEnd(s) == r;
      assert t[..|r|] == s[..|r|];
      forall j | |r| <= j < |s| ensures IsSpace(s[j]) {
        if j < |t| {
          assert s[j] == t[j];
        }
      }
    }
  }

  /** The trimmed string sits at offset `|s| - |TrimStart(s)|` of `s`, with only white space around it. */
  lemma TrimAt(s: string)
    ensures var r, k := Trim(s), |s| - |TrimStart(s)|;
            && 0 <= k <= |s| - |r| && r == s[k..][..|r|]
            && (r != [] ==> !IsSpace(r[0]) && !IsSpace(r[|r| - 1]))
            && (forall j :: 0 <= j < k ==> IsSpace(s[j]))
            && (forall j :: k + |r| <= j < |s| ==> IsSpace(s[j]))
  {
    var t := TrimStart(s);
    TrimStartSpec(s);
    TrimEndSpec(t);
    var r := TrimEnd(t);
    var k := |s| - |t|;
    assert t == s[k..];
    forall j | k + |r| <= j < |s| ensures IsSpace(s[j]) {
      assert s[j] == t[j - k];
    }
  }

  /**
   * The trimmed string is a piece of `s` with only white space on either side
   * of it in `s`, and it neither starts nor ends with white space.
   */
  lemma TrimSpec(s: string)
    ensures var r := Trim(s);
            && (r != [] ==> !IsSpace(r[0]) && !IsSpace(r[|r| - 1]))
            && exists k :: 0 <= k <= |s| - |r| && r == s[k..][..|r|]
                           && (forall j :: 0 <= j < k ==> IsSpace(s[j]))
                           && (forall j :: k + |r| <= j < |s| ==> IsSpace(s[j]))
  {
    TrimAt(s);
    var k := |s| - |TrimStart(s)|;
    assert 0 <= k <= |s| - |Trim(s)| && Trim(s) == s[k..][..|Trim(s)|];
  }

  /** Trimming a trimmed string changes nothing. */
  lemma {:induction false} TrimIdempotent(s: string)
    ensures Trim(Trim(s)) == Trim(s)
  {
    var r := Trim(s);
    TrimSpec(s);
    assert TrimStart(r) == r;
    TrimEndSpec(r);
    assert TrimEnd(r) == r;
  }

  function DigitValue(c: char, radix: nat): (v: Option<nat>)
    ensures v.Some? ==> v.value < radix
  {
    if '0' <= c <= '9' && (c as int - '0' as int) < radix then Some(c as int - '0' as int)
    else if radix == 16 && 'a' <= c <= 'f' then Some(c as int - 'a' as int + 10)
    else if radix == 16 && 'A' <= c <= 'F' then Some(c as int - 'A' as int + 10)
    else None
  }

  /** The length of the longest prefix of `s` made of digits in `radix`. */
  function DigitRun(s: string, radix: nat): (n: nat)
    ensures n <= |s|
    ensures forall j :: 0 <= j < n ==> DigitValue(s[j], radix).Some?
    ensures n < |s| ==> DigitValue(s[n], radix).None?
  {
    if |s| > 0 && DigitValue(s[0], radix).Some? then 1 + DigitRun(s[1..], radix) else 0
  }

  /** The value of a string of digits in `radix`, most significant first. */
  function DigitsValue(ds: string, radix: nat): nat
    requires forall j :: 0 <= j < |ds| ==> DigitValue(ds[j], radix).Some?
  {
    if ds == [] then 0
    else DigitsValue(ds[..|ds| - 1], radix) * radix + DigitValue(ds[|ds| - 1], radix).value
  }

  /**
   * The digits part of `parseInt`: a `0x` prefix selects radix 16, then the
   * longest run of digits is read; no digit at all gives NaN (`None`).
   */
  function ParseUnsigned(u: string): Option<nat> {
    var hex := |u| >= 2 && u[0] == '0' && (u[1] == 'x' || u[1] == 'X');
    var radix := if hex then 16 else 10;
    var body := if hex then u[2..] else u;
    var n := DigitRun(body, radix);
    if n == 0 then None else Some(DigitsValue(body[..n], radix))
  }

  /**
   * `parseInt(s)` with no radix: leading white space and an optional sign,
   * then the digits part.
   */
  function ParseInt(s: string): (r: Option<int>)
  {
    var t := TrimStart(s);
    var negative := |t| > 0 && t[0] == '-';
    var u := if |t| > 0 && (t[0] == '-' || t[0] == '+') then t[1..] else t;
    var p := ParseUnsigned(u);
    if p.None? then None
    else
      var w: int := p.value;
      Some(if negative then -w else w)
  }

  /** A coordinate of a location: `null` before it is known, `NaN`, or a number. */
  datatype Coordinate = Null | NaN | Number(units: int)

  /**
   * The numeric coercion of a field string, as in `s / 1000000`: white space
   * around it is ignored, an empty string is 0, an optionally signed run of
   * decimal digits is its value, anything else NaN. The coordinate keeps the
   * integer before the division by one million.
   */
  function ToCoordinate(s: string): (c: Coordinate)
    ensures c.Number? || c.NaN?
  {
    var t := Trim(s);
    var negative := |t| > 0 && t[0] == '-';
    var u := if |t| > 0 && (t[0] == '-' || t[0] == '+') then t[1..] else t;
    if t == [] then Number(0)
    else if u == [] || DigitRun(u, 10) != |u| then NaN
    else
      var v: int := DigitsValue(u, 10);
      Number(if negative then -v else v)
  }

  // ---------------------------------------------------------------------------
  // Decimal renderings, the inputs on which the number parsers are checked

  function DigitChar(d: nat): char
    requires d < 10
  {
    ('0' as int + d) as char
  }

  /** The decimal digits of `n`, most significant first, without leading zeros. */
  function NatDigits(n: nat): string {
    if n < 10 then [DigitChar(n)] else NatDigits(n / 10) + [DigitChar(n % 10)]
  }

  /** The decimal rendering of `x`: a minus sign for a negative number, then its digits. */
  function Decimal(x: int): string {
    if x < 0 then "-" + NatDigits(-x) else NatDigits(x)
  }

  /** The digits of `n` are decimal digits whose value is `n`. */
  lemma {:induction false} NatDigitsSpec(n: nat)
    ensures |NatDigits(n)| > 0
    ensures forall j :: 0 <= j < |NatDigits(n)| ==> '0' <= NatDigits(n)[j] <= '9'
    ensures DigitsValue(NatDigits(n), 10) == n
  {
    if n >= 10 {
      NatDigitsSpec(n / 10);
      var s := NatDigits(n);
      assert s[..|s| - 1] == NatDigits(n / 10);
    }
  }

  /** The digits of `n` form a whole run of decimal digits worth `n`, without white space at either end. */
  lemma DigitsOfNatDigits(n: nat)
    ensures var s := NatDigits(n);
            && s != [] && '0' <= s[0] <= '9' && '0' <= s[|s| - 1] <= '9'
            && DigitRun(s, 10) == |s|
            && DigitsValue(s, 10) == n
  {
    NatDigitsSpec(n);
    DigitRunStops(NatDigits(n), [], 10);
    assert NatDigits(n) + [] == NatDigits(n);
  }

  /** A run of digits followed by a non-digit is read up to the non-digit. */
  lemma DigitRunStops(u: string, rest: string, radix: nat)
    requires forall j :: 0 <= j < |u| ==> DigitValue(u[j], radix).Some?
    requires rest == [] || DigitValue(rest[0], radix).None?
    ensures DigitRun(u + rest, radix) == |u|
    ensures (u + rest)[..|u|] == u
  {
  }

  /** Leading white space is dropped whatever follows it. */
  lemma {:induction false} TrimStartSpaces(w: string, s: string)
    requires forall j :: 0 <= j < |w| ==> IsSpace(w[j])
    ensures TrimStart(w + s) == TrimStart(s)
  {
    if w == [] {
      assert w + s == s;
    } else {
      assert IsSpace((w + s)[0]);
      assert (w + s)[1..] == w[1..] + s;
      TrimStartSpaces(w[1..], s);
    }
  }

  /** Trailing white space is dropped whatever precedes it. */
  lemma {:induction false} TrimEndSpaces(s: string, w: string)
    requires forall j :: 0 <= j < |w| ==> IsSpace(w[j])
    ensures TrimEnd(s + w) == TrimEnd(s)
  {
    if w == [] {
      assert s + w == s;
    } else {
      var n := |w| - 1;
      assert IsSpace((s + w)[|s + w| - 1]);
      assert (s + w)[..|s + w| - 1] == s + w[..n];
      TrimEndSpaces(s, w[..n]);
    }
  }

  /** A string that starts with a sign or a digit has no leading white space to drop. */
  lemma TrimStartOfNumber(s: string)
    requires s != [] && (s[0] == '-' || '0' <= s[0] <= '9')
    ensures TrimStart(s) == s
  {
  }

  /**
   * The digits part reads a run of decimal digits up to the first non-digit;
   * only a lone "0" followed by an `x` would start a hexadecimal number instead.
   */
  lemma ParseUnsignedDigits(digits: string, rest: string)
    requires digits != [] && forall j :: 0 <= j < |digits| ==> '0' <= digits[j] <= '9'
    requires rest == [] || (DigitValue(rest[0], 10).None? && (|digits| > 1 || digits[0] != '0' || (rest[0] != 'x' && rest[0] != 'X')))
    ensures ParseUnsigned(digits + rest) == Some(DigitsValue(digits, 10))
  {
    var u := digits + rest;
    DigitRunStops(digits, rest, 10);
    assert u[0] == digits[0];
    if |u| >= 2 {
      if |digits| == 1 {
        assert u[1] == rest[0];
      } else {
        assert u[1] == digits[1];
      }
    }
    assert !(|u| >= 2 && u[0] == '0' && (u[1] == 'x' || u[1] == 'X'));
  }

  /** Only 0 is written as the lone digit "0". */
  lemma NatDigitsLeading(n: nat)
    requires n != 0
    ensures |NatDigits(n)| > 1 || NatDigits(n)[0] != '0'
  {
    if n >= 10 {
      assert |NatDigits(n / 10)| > 0;
    }
  }

  /** The digits part reads back the digits of `n`, followed by text that does not continue them. */
  lemma ParseUnsignedNatDigits(n: nat, rest: string)
    requires rest == [] || (DigitValue(rest[0], 10).None? && (n != 0 || (rest[0] != 'x' && rest[0] != 'X')))
    ensures NatDigits(n) != [] && '0' <= NatDigits(n)[0] <= '9'
    ensures ParseUnsigned(NatDigits(n) + rest) == Some(n)
    ensures (NatDigits(n) + rest)[0] == NatDigits(n)[0]
  {
    NatDigitsSpec(n);
    if n != 0 {
      NatDigitsLeading(n);
    }
    ParseUnsignedDigits(NatDigits(n), rest);
  }

  /** Text starting with a digit is read by the digits part alone. */
  lemma ParseIntUnsigned(u: string)
    requires u != [] && '0' <= u[0] <= '9'
    ensures ParseInt(u) == match ParseUnsigned(u) case None => None case Some(v) => Some(v)
  {
    TrimStartOfNumber(u);
  }

  /** A minus sign before text starting with a digit negates what the digits part reads. */
  lemma ParseIntNegative(u: string)
    requires u != [] && '0' <= u[0] <= '9'
    ensures ParseInt("-" + u) == match ParseUnsigned(u) case None => None case Some(v) => Some(-(v as int))
  {
    var s := "-" + u;
    TrimStartOfNumber(s);
    assert s[1..] == u;
  }

  /**
   * `parseInt` reads back the decimal rendering of every integer, also when
   * other text follows it, as long as that text does not start with a digit
   * (or, after a lone "0", with the `x` of a hexadecimal prefix).
   */
  lemma ParseIntDecimal(x: int, rest: string)
    requires rest == [] || (DigitValue(rest[0], 10).None? && (x != 0 || (rest[0] != 'x' && rest[0] != 'X')))
    ensures ParseInt(Decimal(x) + rest) == Some(x)
  {
    var a: nat := if x < 0 then -x else x;
    var u := NatDigits(a) + rest;
    ParseUnsignedNatDigits(a, rest);
    if x < 0 {
      assert Decimal(x) + rest == "-" + u;
      ParseIntNegative(u);
    } else {
      ParseIntUnsigned(u);
    }
  }

  /** `parseInt` skips white space in front of a field: padding does not change what it reads. */
  lemma ParseIntLeadingSpace(w: string, s: string)
    requires forall j :: 0 <= j < |w| ==> IsSpace(w[j])
    ensures ParseInt(w + s) == ParseInt(s)
  {
    TrimStartSpaces(w, s);
  }

  /** Without any decimal digit, `parseInt` gives NaN; in particular for a blank field. */
  lemma ParseIntNoDigit(s: string)
    requires forall j :: 0 <= j < |s| ==> !('0' <= s[j] <= '9')
    ensures ParseInt(s).None?
  {
    TrimStartSpec(s);
    var t := TrimStart(s);
    assert forall j :: 0 <= j < |t| ==> t[j] == s[|s| - |t| + j];
  }

  /** The decimal rendering of `x` starts with a sign or a digit, ends with a digit, and is its own trim. */
  lemma DecimalTrimmed(x: int)
    ensures var s := Decimal(x);
            && s != [] && (s[0] == '-' || '0' <= s[0] <= '9') && '0' <= s[|s| - 1] <= '9'
            && TrimStart(s) == s && TrimEnd(s) == s
  {
    var a: nat := if x < 0 then -x else x;
    DigitsOfNatDigits(a);
    var digits := NatDigits(a);
    var s := Decimal(x);
    assert s == if x < 0 then "-" + digits else digits;
    assert s[0] == if x < 0 then '-' else digits[0];
    assert s[|s| - 1] == digits[|digits| - 1];
    assert !IsSpace(s[0]) && !IsSpace(s[|s| - 1]);
  }

  /** The numeric coercion reads back the decimal rendering of every integer. */
  lemma ToCoordinateDecimal(x: int)
    ensures ToCoordinate(Decimal(x)) == Number(x)
  {
    var a: nat := if x < 0 then -x else x;
    DigitsOfNatDigits(a);
    DecimalTrimmed(x);
    var s := Decimal(x);
    assert Trim(s) == s;
    var u := if s[0] == '-' || s[0] == '+' then s[1..] else s;
    assert u == NatDigits(a) by {
      if x < 0 {
        assert s[1..] == NatDigits(a);
      }
    }
    assert u != [] && DigitRun(u, 10) == |u| && DigitsValue(u, 10) == a;
  }

  /** White space around the decimal rendering of an integer, as in a padded field, does not change the coordinate. */
  lemma ToCoordinatePadded(w1: string, x: int, w2: string)
    requires forall j :: 0 <= j < |w1| ==> IsSpace(w1[j])
    requires forall j :: 0 <= j < |w2| ==> IsSpace(w2[j])
    ensures ToCoordinate(w1 + Decimal(x) + w2) == Number(x)
  {
    var d := Decimal(x);
    DecimalTrimmed(x);
    assert w1 + d + w2 == w1 + (d + w2);
    TrimStartSpaces(w1, d + w2);
    TrimStartOfNumber(d + w2);
    TrimEndSpaces(d, w2);
    assert Trim(w1 + d + w2) == Trim(d);
    ToCoordinateDecimal(x);
  }

  /** A field of white space only (or the empty field) coerces to 0, not to NaN. */
  lemma ToCoordinateBlank(s: string)
    requires forall j :: 0 <= j < |s| ==> IsSpace(s[j])
    ensures ToCoordinate(s) == Number(0)
  {
    TrimStartSpec(s);
  }
}
