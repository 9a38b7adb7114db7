// Values shared by every route of the labeling back end: identifiers,
// optional and patch fields, the JSON values a request body may carry,
// JavaScript's truthiness and `String(...)` coercion, and the
// status-tagged reply every handler returns.
module Common {

  /** Row identifier handed out by the store (a UUID in the deployed system). */
  type Id = nat

  datatype Option<+T> = None | Some(value: T)

  /** A request-body field that may be `undefined` (Missing) or carry a value,
      possibly `null`; partial updates write only the Given ones. */
  datatype Field<+T> = Missing | Given(value: T)

  /** The value a partial update leaves in a column: the Given value, or the
      current one when the field is Missing. */
  function Written<T>(f: Field<T>, current: T): T
  {
    if f.Given? then f.value else current
  }

  /** `Number.MAX_SAFE_INTEGER`, 2^53 - 1: up to it in magnitude every
      integer is a distinct double and `String` prints its exact digits. */
  const MaxSafeInteger: int := 0x1F_FFFF_FFFF_FFFF

  type SafeInt = n: int | -MaxSafeInteger <= n <= MaxSafeInteger

  /** The JSON values a request field such as `answer_value` may hold.
      Numbers are restricted to the safe integers. */
  datatype JsValue = Undefined | Null | Bool(b: bool) | Num(n: SafeInt) | Str(s: string)

  /** JavaScript truthiness of a value (`!v` is `!Truthy(v)`). */
  predicate Truthy(v: JsValue)
  {
    match v
    case Undefined => false
    case Null => false
    case Bool(b) => b
    case Num(n) => n != 0
    case Str(s) => s != ""
  }

  /** A handler's answer: the HTTP status with a payload, or an error status. */
  datatype Reply<+T> = Ok(status: nat, value: T) | Fail(status: nat)
  {
    function Code(): nat
    {
      match this
      case Ok(s, _) => s
      case Fail(s) => s
    }
  }

  // ---------------------------------------------------------------------------
  // Decimal rendering, as `String(n)` and template literals print an integer.

  predicate IsDigit(c: char)
  {
    '0' <= c <= '9'
  }

  function DigitChar(d: nat): (c: char)
    requires d < 10
    ensures IsDigit(c)
  {
    ['0', '1', '2', '3', '4', '5', '6', '7', '8', '9'][d]
  }

  function DigitValue(c: char): (d: nat)
    requires IsDigit(c)
    ensures d < 10
  {
    (c as int - '0' as int) as nat
  }

  /** The shortest decimal numeral of a natural number. */
  function NatDecimal(n: nat): (r: string)
    ensures |r| >= 1
    ensures forall i :: 0 <= i < |r| ==> IsDigit(r[i])
    ensures |r| > 1 ==> r[0] != '0'
    decreases n
  {
    if n < 10 then [DigitChar(n)] else NatDecimal(n / 10) + [DigitChar(n % 10)]
  }

  /** Reads a string of digits back as a number (most significant first). */
  function DigitsValue(s: string): nat
    requires forall i :: 0 <= i < |s| ==> IsDigit(s[i])
  {
    if s == [] then 0 else 10 * DigitsValue(s[..|s| - 1]) + DigitValue(s[|s| - 1])
  }

  lemma DigitRoundTrip(d: nat)
    requires d < 10
    ensures DigitValue(DigitChar(d)) == d
  {
  }

  /** Reading back the numeral of `n` gives `n`: the rendering loses nothing. */
  lemma {:induction false} NatDecimalRoundTrip(n: nat)
    ensures DigitsValue(NatDecimal(n)) == n
  {
    var r := NatDecimal(n);
    if n < 10 {
      DigitRoundTrip(n);
    } else {
      NatDecimalRoundTrip(n / 10);
      DigitRoundTrip(n % 10);
      assert r[..|r| - 1] == NatDecimal(n / 10);
    }
  }

  /** `String(n)` for a safe integer `n`: an optional minus sign, then the
      shortest numeral of its magnitude. */
  function IntDecimal(n: SafeInt): (r: string)
    ensures |r| >= 1
    ensures (r[0] == '-') <==> n < 0
  {
    if n < 0 then "-" + NatDecimal(-n) else NatDecimal(n)
  }

  /** `String(v)` as the batch path applies it to `answer_value`. */
  function ToText(v: JsValue): (r: string)
    ensures v.Str? ==> r == v.s
    ensures v.Num? ==> r == IntDecimal(v.n)
    ensures v == Null ==> r == "null"
  {
    match v
    case Undefined => "undefined"
    case Null => "null"
    case Bool(b) => if b then "true" else "false"
    case Num(n) => IntDecimal(n)
    case Str(s) => s
  }

  /** The text stored for a number reads back as that number: after the
      sign, which is present exactly for a negative one, come the digits of
      its magnitude. */
  lemma NumTextRoundTrip(n: SafeInt)
    ensures var r := ToText(Num(n));
      var digits := if n < 0 then r[1..] else r;
      (r[0] == '-' <==> n < 0)
      && (forall i :: 0 <= i < |digits| ==> IsDigit(digits[i]))
      && DigitsValue(digits) == if n < 0 then -n else n
  {
    var m := if n < 0 then -n else n;
    NatDecimalRoundTrip(m);
    if n < 0 {
      assert ToText(Num(n))[1..] == NatDecimal(m);
    }
  }

  // ---------------------------------------------------------------------------
  // Table queries: `.eq(...)` filters and the "exactly one row" of `.single()`.

  /** The elements of `s` that satisfy `p`, in their original order. */
  function Filter<T(!new)>(s: seq<T>, p: T -> bool): (r: seq<T>)
    ensures |r| <= |s|
    ensures forall i :: 0 <= i < |r| ==> p(r[i])
    ensures forall x :: x in r <==> x in s && p(x)
  {
    if s == [] then []
    else if p(s[0]) then [s[0]] + Filter(s[1..], p)
    else Filter(s[1..], p)
  }

  lemma {:induction false} FilterAppend<T(!new)>(a: seq<T>, b: seq<T>, p: T -> bool)
    ensures Filter(a + b, p) == Filter(a, p) + Filter(b, p)
  {
    if a == [] {
      assert a + b == b;
    } else {
      assert (a + b)[1..] == a[1..] + b;
      FilterAppend(a[1..], b, p);
    }
  }

  /** A filter keeps every element exactly when its predicate holds of all. */
  lemma {:induction false} FilterAll<T(!new)>(s: seq<T>, p: T -> bool)
    requires forall i :: 0 <= i < |s| ==> p(s[i])
    ensures Filter(s, p) == s
  {
    if s != [] {
      FilterAll(s[1..], p);
    }
  }

  /** A filter drops every element when its predicate holds of none. */
  lemma {:induction false} FilterNone<T(!new)>(s: seq<T>, p: T -> bool)
    requires forall i :: 0 <= i < |s| ==> !p(s[i])
    ensures Filter(s, p) == []
  {
    if s != [] {
      FilterNone(s[1..], p);
    }
  }

  /** A filter whose predicate fails at exactly one position drops exactly
      one element. */
  lemma {:induction false} FilterDropsOne<T(!new)>(s: seq<T>, p: T -> bool, j: nat)
    requires j < |s| && !p(s[j])
    requires forall i :: 0 <= i < |s| && i != j ==> p(s[i])
    ensures |Filter(s, p)| == |s| - 1
  {
    if j == 0 {
      FilterAll(s[1..], p);
    } else {
      FilterDropsOne(s[1..], p, j - 1);
    }
  }

  /** A filter whose predicate holds at exactly one position yields that
      element alone. */
  lemma {:induction false} FilterKeepsOne<T(!new)>(s: seq<T>, p: T -> bool, j: nat)
    requires j < |s| && p(s[j])
    requires forall i :: 0 <= i < |s| && i != j ==> !p(s[i])
    ensures Filter(s, p) == [s[j]]
  {
    if j == 0 {
      FilterNone(s[1..], p);
    } else {
      FilterKeepsOne(s[1..], p, j - 1);
    }
  }

  /** Number of elements of `s` that satisfy `p`. */
  function Count<T(!new)>(s: seq<T>, p: T -> bool): (n: nat)
    ensures n <= |s|
  {
    |Filter(s, p)|
  }

  /** The row `.single()` yields: present exactly when one row matches. */
  function Single<T(!new)>(s: seq<T>, p: T -> bool): (r: Option<T>)
    ensures r.Some? <==> Count(s, p) == 1
    ensures r.Some? ==> r.value in s && p(r.value)
  {
    var m := Filter(s, p);
    if |m| == 1 then Some(m[0]) else None
  }

  // ---------------------------------------------------------------------------
  // Positions of a loop that sorts its iterations into outcomes.

  /** The positions below `n` where `p` holds, in increasing order. */
  function Positions(n: nat, p: nat -> bool): (ix: seq<nat>)
    ensures forall k :: 0 <= k < |ix| ==> ix[k] < n
  {
    if n == 0 then [] else Positions(n - 1, p) + (if p(n - 1) then [n - 1] else [])
  }

  /** Position `i` is listed exactly when `p(i)` holds. */
  lemma {:induction false} PositionsFate(n: nat, p: nat -> bool, i: nat)
    requires i < n
    ensures i in Positions(n, p) <==> p(i)
  {
    if i < n - 1 {
      PositionsFate(n - 1, p, i);
    } else {
      assert i !in Positions(n - 1, p);
    }
  }

  /** Splitting the positions by a predicate and its negation covers every
      position exactly once. */
  lemma {:induction false} PositionsSplit(n: nat, p: nat -> bool, q: nat -> bool)
    requires forall i :: q(i) <==> !p(i)
    ensures |Positions(n, p)| + |Positions(n, q)| == n
  {
    if n > 0 {
      PositionsSplit(n - 1, p, q);
    }
  }
}
