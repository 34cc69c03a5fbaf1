/**
  Shared vocabulary of the model: store-assigned identifiers, the optional
  and failure-carrying wrappers used for Python's `None` and exceptions, and
  the few sequence and string functions several modules rely on.
 */
module Base {

  /** An opaque identifier assigned by the document store. */
  type Id = string

  /** Python's `None` versus a present value. */
  datatype Option<+T> = None | Some(value: T) {
    function GetOr(default: T): T {
      match this
      case Some(v) => v
      case None => default
    }
  }

  /** The Python exceptions the modelled code can raise and does not catch.
      `Malformed` stands for a stored value whose shape the typed model
      cannot represent (Python would keep the ill-typed value). */
  datatype Fault = KeyError | ValueError | TypeError | AttributeError | NameError | Malformed

  /** A pure computation that either yields a value or raises. */
  datatype Result<+T> = Ok(value: T) | Err(fault: Fault) {
    predicate IsFailure() {
      Err?
    }

    function PropagateFailure<U>(): Result<U>
      requires Err?
    {
      Err(fault)
    }

    function Extract(): T
      requires Ok?
    {
      value
    }
  }

  /** A state transition that either completes with a value or raises part
      way through, leaving behind whatever state it had already written. */
  datatype Outcome<S, T> = Done(state: S, value: T) | Crashed(state: S, fault: Fault)

  // ---------------------------------------------------------------------
  // Sequences

  /** Number of occurrences of `x` in `s`. */
  function Count<T(==)>(s: seq<T>, x: T): nat
  {
    if s == [] then 0 else (if s[0] == x then 1 else 0) + Count(s[1..], x)
  }

  lemma {:induction false} CountAppend<T>(a: seq<T>, b: seq<T>, x: T)
    ensures Count(a + b, x) == Count(a, x) + Count(b, x)
  {
    if a == [] {
      assert a + b == b;
    } else {
      assert (a + b)[1..] == a[1..] + b;
      CountAppend(a[1..], b, x);
    }
  }

  lemma {:induction false} CountPositive<T>(s: seq<T>, x: T)
    ensures Count(s, x) > 0 <==> x in s
  {
    if s != [] {
      CountPositive(s[1..], x);
      assert s == [s[0]] + s[1..];
    }
  }

  /** Index of the first occurrence of `x` in `s`. */
  function FirstIndex<T(==)>(s: seq<T>, x: T): (i: nat)
    requires x in s
    ensures i < |s| && s[i] == x
    ensures forall j :: 0 <= j < i ==> s[j] != x
  {
    if s[0] == x then 0 else 1 + FirstIndex(s[1..], x)
  }

  /** Python's `list.remove(x)`: drops the first occurrence of `x`; the
      caller decides what a missing `x` means (Python raises ValueError). */
  function RemoveFirst<T(==,!new)>(s: seq<T>, x: T): (r: seq<T>)
    requires x in s
    ensures |r| == |s| - 1
    ensures Count(r, x) == Count(s, x) - 1
    ensures forall y :: y != x ==> Count(r, y) == Count(s, y)
  {
    var i := FirstIndex(s, x);
    assert s == s[..i] + [x] + s[i + 1..];
    CountAppend(s[..i] + [x], s[i + 1..], x);
    CountAppend(s[..i], [x], x);
    CountAppend(s[..i], s[i + 1..], x);
    forall y | y != x
      ensures Count(s[..i] + s[i + 1..], y) == Count(s, y)
    {
      CountAppend(s[..i] + [x], s[i + 1..], y);
      CountAppend(s[..i], [x], y);
      CountAppend(s[..i], s[i + 1..], y);
    }
    s[..i] + s[i + 1..]
  }

  /** Every element of `s` except the occurrences of `x`, in their order. */
  function Without<T(==,!new)>(s: seq<T>, x: T): (r: seq<T>)
    ensures x !in r
    ensures forall y :: y != x ==> Count(r, y) == Count(s, y)
    ensures |r| == |s| - Count(s, x)
  {
    if s == [] then []
    else if s[0] == x then Without(s[1..], x)
    else [s[0]] + Without(s[1..], x)
  }

  /** `Without` distributes over concatenation and so keeps the relative
      order of the elements it keeps. */
  lemma {:induction false} WithoutConcat<T(!new)>(a: seq<T>, b: seq<T>, x: T)
    ensures Without(a + b, x) == Without(a, x) + Without(b, x)
  {
    if a == [] {
      assert a + b == b;
    } else {
      assert (a + b)[1..] == a[1..] + b;
      WithoutConcat(a[1..], b, x);
    }
  }

  /** Filtering out an element that does not occur changes nothing. */
  lemma {:induction false} WithoutAbsent<T(!new)>(xs: seq<T>, x: T)
    requires x !in xs
    ensures Without(xs, x) == xs
  {
    if xs != [] {
      WithoutAbsent(xs[1..], x);
      assert [xs[0]] + xs[1..] == xs;
    }
  }

  /** `xs` with `x` placed at position `at`; the elements from `at` on
      move up by one. */
  function Insert<T(!new)>(xs: seq<T>, at: nat, x: T): (r: seq<T>)
    requires at <= |xs|
    ensures |r| == |xs| + 1 && r[at] == x
    ensures forall i :: 0 <= i < at ==> r[i] == xs[i]
    ensures forall i :: at < i < |r| ==> r[i] == xs[i - 1]
    ensures forall y :: y in r <==> y == x || y in xs
  {
    assert xs == xs[..at] + xs[at..];
    xs[..at] + [x] + xs[at..]
  }

  /** Cutting an inserted element out again gives the list back. */
  lemma RemoveInserted<T(!new)>(xs: seq<T>, at: nat, x: T)
    requires at <= |xs|
    ensures Insert(xs, at, x)[..at] + Insert(xs, at, x)[at + 1..] == xs
  {
    var r := Insert(xs, at, x);
    assert r[..at] == xs[..at];
    assert r[at + 1..] == xs[at..];
    assert xs[..at] + xs[at..] == xs;
  }

  /** Filtering out an element just inserted into a list that lacked it
      gives the list back. */
  lemma WithoutInserted<T(!new)>(xs: seq<T>, at: nat, x: T)
    requires at <= |xs| && x !in xs
    ensures Without(Insert(xs, at, x), x) == xs
  {
    var a, b := xs[..at], xs[at..];
    assert xs == a + b;
    assert x !in a && x !in b;
    WithoutConcat(a + [x], b, x);
    WithoutConcat(a, [x], x);
    WithoutAbsent(a, x);
    WithoutAbsent(b, x);
    assert Without([x], x) == [];
  }

  /** Inserting an element that does not occur keeps a list free of
      repetitions. */
  lemma InsertKeepsDistinct<T(!new)>(xs: seq<T>, at: nat, x: T)
    requires at <= |xs| && x !in xs
    requires forall i, j :: 0 <= i < j < |xs| ==> xs[i] != xs[j]
    ensures var r := Insert(xs, at, x);
            forall i, j :: 0 <= i < j < |r| ==> r[i] != r[j]
  {
    var r := Insert(xs, at, x);
    forall i, j | 0 <= i < j < |r|
      ensures r[i] != r[j]
    {
      var i' := if i < at then i else i - 1;
      var j' := if j < at then j else j - 1;
      if i != at && j != at {
        assert r[i] == xs[i'] && r[j] == xs[j'] && i' < j';
      } else if i == at {
        assert r[j] == xs[j'];
      } else {
        assert r[i] == xs[i'];
      }
    }
  }

  // ---------------------------------------------------------------------
  // Strings

  /** `str.lower()` restricted to ASCII letters. */
  function LowerChar(c: char): (d: char)
  {
    if 'A' <= c <= 'Z' then (c as int + 32) as char else c
  }

  function Lower(s: string): (r: string)
    ensures |r| == |s|
    ensures forall i :: 0 <= i < |s| ==> r[i] == LowerChar(s[i])
  {
    if s == [] then [] else [LowerChar(s[0])] + Lower(s[1..])
  }

  /** Lower-casing a second time changes nothing. */
  lemma LowerIdempotent(s: string)
    ensures Lower(Lower(s)) == Lower(s)
  {
    assert forall i :: 0 <= i < |s| ==> LowerChar(LowerChar(s[i])) == LowerChar(s[i]);
  }

  /** Lower-casing changes only upper-case ASCII letters. */
  lemma LowerFixesLowercase(s: string)
    requires forall i :: 0 <= i < |s| ==> !('A' <= s[i] <= 'Z')
    ensures Lower(s) == s
  {
  }

  // ---------------------------------------------------------------------
  // Integers and their decimal text (Python's `int(str)` and `str(int)`)

  predicate IsDigit(c: char) {
    '0' <= c <= '9'
  }

  predicate AllDigits(s: string) {
    forall i :: 0 <= i < |s| ==> IsDigit(s[i])
  }

  /** Value of a string of decimal digits, most significant first. */
  function DigitsValue(s: string): nat
    requires AllDigits(s)
  {
    if s == [] then 0 else DigitsValue(s[..|s| - 1]) * 10 + (s[|s| - 1] as int - '0' as int)
  }

  /** The ASCII characters Python treats as whitespace: space, tab, line
      feed, vertical tab, form feed, carriage return and the four
      separators 0x1C-0x1F. */
  predicate IsSpace(c: char) {
    c == ' ' || 9 <= c as int <= 13 || 28 <= c as int <= 31
  }

  predicate AllSpace(s: string) {
    forall i :: 0 <= i < |s| ==> IsSpace(s[i])
  }

  /** `s` with its leading whitespace removed. */
  function TrimStart(s: string): (r: string)
    ensures |r| <= |s|
  {
    if s != [] && IsSpace(s[0]) then TrimStart(s[1..]) else s
  }

  /** `TrimStart` removes exactly the longest all-whitespace prefix: what it
      drops is whitespace, and what it keeps is a suffix of `s` that does
      not start with whitespace. */
  lemma {:induction false} TrimStartSpec(s: string)
    ensures var r := TrimStart(s);
            && r == s[|s| - |r|..]
            && (r == [] || !IsSpace(r[0]))
            && AllSpace(s[..|s| - |r|])
  {
    if s != [] && IsSpace(s[0]) {
      TrimStartSpec(s[1..]);
      var r := TrimStart(s);
      assert s[1..][|s| - 1 - |r|..] == s[|s| - |r|..];
      assert forall i :: 1 <= i < |s| - |r| ==> s[1..][..|s| - 1 - |r|][i - 1] == s[i];
    }
  }

  /** `s` with its trailing whitespace removed. */
  function TrimEnd(s: string): (r: string)
    ensures |r| <= |s|
  {
    if s != [] && IsSpace(s[|s| - 1]) then TrimEnd(s[..|s| - 1]) else s
  }

  /** `TrimEnd` removes exactly the longest all-whitespace suffix. */
  lemma {:induction false} TrimEndSpec(s: string)
    ensures var r := TrimEnd(s);
            && r == s[..|r|]
            && (r == [] || !IsSpace(r[|r| - 1]))
            && AllSpace(s[|r|..])
  {
    if s != [] && IsSpace(s[|s| - 1]) {
      TrimEndSpec(s[..|s| - 1]);
      var r := TrimEnd(s);
      assert s[..|s| - 1][..|r|] == s[..|r|];
      assert forall i :: |r| <= i < |s| - 1 ==> s[..|s| - 1][|r|..][i - |r|] == s[i];
    }
  }

  /** `s` with whitespace removed at both ends, as `int()` does first. */
  function Strip(s: string): string {
    TrimEnd(TrimStart(s))
  }

  /** A digit string as `int()` reads it in base 10: digits, where a single
      underscore may separate two digits. */
  predicate Grouped(s: string) {
    && |s| > 0 && IsDigit(s[0]) && IsDigit(s[|s| - 1])
    && (forall i :: 0 <= i < |s| ==> IsDigit(s[i]) || s[i] == '_')
    && (forall i :: 0 <= i < |s| - 1 ==> DigitAfterUnderscore(s, i))
  }

  /** An underscore at `i` is followed by a digit. */
  predicate DigitAfterUnderscore(s: string, i: nat)
    requires i < |s| - 1
  {
    s[i] == '_' ==> IsDigit(s[i + 1])
  }

  /** The digits of `s`, underscores dropped. */
  function DropUnderscores(s: string): (r: string)
    ensures (forall i :: 0 <= i < |s| ==> IsDigit(s[i]) || s[i] == '_') ==> AllDigits(r)
  {
    if s == [] then []
    else if s[|s| - 1] == '_' then DropUnderscores(s[..|s| - 1])
    else DropUnderscores(s[..|s| - 1]) + [s[|s| - 1]]
  }

  /** `int(s)`: surrounding whitespace is ignored, then an optional sign and
      a digit string with optional single underscores between digits;
      `None` where Python raises ValueError. */
  function ParseInt(s: string): (r: Option<int>)
    ensures r.Some? ==> Strip(s) != []
    ensures |s| > 0 && AllDigits(s) ==> r == Some(DigitsValue(s))
  {
    if |s| > 0 && AllDigits(s) then
      DigitsUnpadded(s);
      ParseSigned(Strip(s))
    else ParseSigned(Strip(s))
  }

  /** `int()` on text already stripped: an optional sign, then a digit
      string with optional single underscores between digits. */
  function ParseSigned(t: string): (r: Option<int>)
    ensures r.Some? ==> t != []
    ensures Grouped(t) ==> r == Some(DigitsValue(DropUnderscores(t)))
  {
    if |t| > 0 && (t[0] == '-' || t[0] == '+') then
      var body := t[1..];
      if Grouped(body) then
        var magnitude: int := DigitsValue(DropUnderscores(body));
        Some(if t[0] == '-' then -magnitude else magnitude)
      else None
    else if Grouped(t) then Some(DigitsValue(DropUnderscores(t)))
    else None
  }

  /** Text with no whitespace at either end is left alone by `Strip`. */
  lemma Unpadded(s: string)
    requires s == [] || (!IsSpace(s[0]) && !IsSpace(s[|s| - 1]))
    ensures Strip(s) == s
  {
  }

  /** A digit string has no whitespace to strip and no underscore to drop. */
  lemma DigitsUnpadded(s: string)
    requires |s| > 0 && AllDigits(s)
    ensures Strip(s) == s && Grouped(s) && DropUnderscores(s) == s
  {
    assert !IsSpace(s[0]) && !IsSpace(s[|s| - 1]);
    Unpadded(s);
    forall i | 0 <= i < |s| - 1
      ensures DigitAfterUnderscore(s, i)
    {
      assert IsDigit(s[i]);
    }
    DropUnderscoresOfDigits(s);
  }

  lemma {:induction false} DropUnderscoresOfDigits(s: string)
    requires AllDigits(s)
    ensures DropUnderscores(s) == s
  {
    if s != [] {
      DropUnderscoresOfDigits(s[..|s| - 1]);
      assert s[..|s| - 1] + [s[|s| - 1]] == s;
    }
  }

  lemma {:induction false} TrimStartSpaces(a: string, x: string)
    requires AllSpace(a) && (x == [] || !IsSpace(x[0]))
    ensures TrimStart(a + x) == x
  {
    if a != [] {
      assert (a + x)[1..] == a[1..] + x;
      TrimStartSpaces(a[1..], x);
    } else {
      assert a + x == x;
    }
  }

  lemma {:induction false} TrimEndSpaces(x: string, b: string)
    requires AllSpace(b) && (x == [] || !IsSpace(x[|x| - 1]))
    ensures TrimEnd(x + b) == x
  {
    if b != [] {
      assert (x + b)[..|x + b| - 1] == x + b[..|b| - 1];
      TrimEndSpaces(x, b[..|b| - 1]);
    } else {
      assert x + b == x;
    }
  }

  /** Whitespace around the text changes nothing: `int(" 2020\n")` reads
      the same as `int("2020")`. */
  lemma PaddingIgnored(a: string, s: string, b: string)
    requires AllSpace(a) && AllSpace(b)
    requires s == [] || (!IsSpace(s[0]) && !IsSpace(s[|s| - 1]))
    ensures ParseInt(a + s + b) == ParseInt(s)
  {
    if s == [] {
      assert a + s + b == (a + b) + [];
      assert AllSpace(a + b) by {
        assert forall i :: 0 <= i < |a + b| ==> (a + b)[i] == if i < |a| then a[i] else b[i - |a|];
      }
      TrimStartSpaces(a + b, []);
      assert Strip(a + s + b) == [];
      assert Strip(s) == [];
    } else {
      assert a + s + b == a + (s + b);
      TrimStartSpaces(a, s + b);
      TrimEndSpaces(s, b);
      TrimStartSpaces([], s);
      TrimEndSpaces(s, []);
      assert s + [] == s;
      assert Strip(a + s + b) == Strip(s);
    }
  }

  lemma {:induction false} DropUnderscoresAppend(x: string, y: string)
    ensures DropUnderscores(x + y) == DropUnderscores(x) + DropUnderscores(y)
  {
    if y == [] {
      assert x + y == x;
    } else {
      var y0 := y[..|y| - 1];
      assert (x + y)[..|x + y| - 1] == x + y0;
      DropUnderscoresAppend(x, y0);
    }
  }

  /** An underscore between two digit strings is ignored: `int("2_020")`
      reads the same as `int("2020")`. */
  lemma UnderscoreIgnored(x: string, y: string)
    requires |x| > 0 && AllDigits(x) && |y| > 0 && AllDigits(y)
    ensures ParseInt(x + "_" + y) == ParseInt(x + y)
  {
    var s := x + "_" + y;
    assert s[0] == x[0] && s[|s| - 1] == y[|y| - 1];
    Unpadded(s);
    JoinGrouped(x, y);
    JoinDropsUnderscore(x, y);
    assert AllDigits(x + y);
  }

  lemma JoinGrouped(x: string, y: string)
    requires |x| > 0 && AllDigits(x) && |y| > 0 && AllDigits(y)
    ensures Grouped(x + "_" + y)
  {
    var s := x + "_" + y;
    forall i | 0 <= i < |s|
      ensures IsDigit(s[i]) || s[i] == '_'
    {
      if i < |x| {
        assert s[i] == x[i];
      } else if i > |x| {
        assert s[i] == y[i - |x| - 1];
      }
    }
    forall i | 0 <= i < |s| - 1
      ensures DigitAfterUnderscore(s, i)
    {
      if i == |x| {
        assert s[i + 1] == y[0];
      }
    }
  }

  lemma JoinDropsUnderscore(x: string, y: string)
    requires AllDigits(x) && AllDigits(y)
    ensures DropUnderscores(x + "_" + y) == x + y
  {
    assert x + "_" + y == x + ("_" + y);
    DropUnderscoresAppend(x, "_" + y);
    DropUnderscoresAppend("_", y);
    assert DropUnderscores("_") == [];
    DropUnderscoresOfDigits(x);
    DropUnderscoresOfDigits(y);
    assert [] + y == y;
  }

  /** A doubled underscore makes `int()` raise ValueError. */
  lemma DoubleUnderscoreRejected()
    ensures ParseInt("2__020") == None
  {
    var s := "2__020";
    Unpadded(s);
    assert !Grouped(s) by {
      assert !DigitAfterUnderscore(s, 1);
    }
    assert !Grouped(s[1..]) by {
      assert s[1..][0] == '_';
    }
  }

  function DigitChar(d: nat): char
    requires d < 10
  {
    ('0' as int + d) as char
  }

  /** `str(n)` for a natural number. */
  function ShowNat(n: nat): (r: string)
    ensures |r| > 0 && AllDigits(r)
  {
    if n < 10 then [DigitChar(n)] else ShowNat(n / 10) + [DigitChar(n % 10)]
  }

  /** `str(i)` for any integer. */
  function ShowInt(i: int): (r: string)
    ensures |r| > 0
  {
    if i < 0 then "-" + ShowNat(-i) else ShowNat(i)
  }

  lemma {:induction false} DigitsOfShowNat(n: nat)
    ensures DigitsValue(ShowNat(n)) == n
  {
    var s := ShowNat(n);
    if n >= 10 {
      DigitsOfShowNat(n / 10);
      assert s[..|s| - 1] == ShowNat(n / 10);
    }
  }

  /** A minus sign before a digit string negates its value. */
  lemma ParseNegative(t: string)
    requires |t| > 1 && t[0] == '-' && AllDigits(t[1..])
    ensures ParseInt(t) == Some(-(DigitsValue(t[1..]) as int))
  {
    DigitsUnpadded(t[1..]);
    assert t[|t| - 1] == t[1..][|t| - 2];
    Unpadded(t);
    NegativeSigned(t);
  }

  lemma NegativeSigned(t: string)
    requires |t| > 0 && t[0] == '-' && Grouped(t[1..])
    ensures ParseSigned(t) == Some(-(DigitsValue(DropUnderscores(t[1..])) as int))
  {
  }

  /** Reading back the decimal text of an integer gives the integer, so a
      count written with `str` and read with `int` is unchanged. */
  lemma ParseShowRoundTrip(i: int)
    ensures ParseInt(ShowInt(i)) == Some(i)
  {
    if i < 0 {
      var t := ShowInt(i);
      assert |t| > 1 && t[0] == '-' && t[1..] == ShowNat(-i);
      ParseMinusShowNat(-i, t);
    } else {
      DigitsOfShowNat(i);
    }
  }

  lemma ParseMinusShowNat(n: nat, t: string)
    requires n > 0 && |t| > 1 && t[0] == '-' && t[1..] == ShowNat(n)
    ensures ParseInt(t) == Some(-(n as int))
  {
    ParseNegative(t);
    DigitsOfShowNat(n);
  }
}
