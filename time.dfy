/**
 * The fixed-point intervals and dates of time.cpp: an interval is a whole
 * number of days plus a sub-day count of picoseconds, a date is an interval
 * since the start of the Julian day count.
 */
module Time {
  import opened Prelude

  const NANOSEC_MULT: u64 := 1_000
  const CLUNK_MULT: u64 := 100_000
  const MICROSEC_MULT: u64 := 1_000_000
  const MILLISEC_MULT: u64 := 1_000_000_000
  const SEC_MULT: u64 := 1_000_000_000_000
  const DAY_MULT: u64 := 86_400_000_000_000_000

  /** The largest time_t, max<time_t>() for a signed 64-bit time_t. */
  const TIME_T_MAX: u64 := 0x7FFF_FFFF_FFFF_FFFF

  /** inter_t. */
  datatype Inter = Inter(days: u64, picos: u64)

  /** valid: the picosecond part stays below one day. */
  predicate Valid(inter: Inter)
  {
    inter.picos < DAY_MULT
  }

  /** The length of an interval in picoseconds. */
  function Picos(inter: Inter): int
  {
    inter.days * DAY_MULT + inter.picos
  }

  /** The nat8_t result of a computation that saturates at the largest nat8_t. */
  function Saturate(x: int): (r: u64)
    ensures 0 <= x <= U64_MAX ==> r == x
    ensures x > U64_MAX ==> r == U64_MAX
  {
    if 0 <= x <= U64_MAX then x else U64_MAX
  }

  /** (x + (divisor / 2 - 1)) / divisor: the quotient rounded to nearest, exact halves down. */
  function RoundHalfDown(x: nat, divisor: nat): nat
    requires divisor >= 2
  {
    (x + (divisor / 2 - 1)) / divisor
  }

  /** For an even divisor the remainder left over lies in (-divisor / 2, divisor / 2]. */
  lemma RoundHalfDownNearest(x: nat, divisor: nat)
    requires divisor >= 2 && divisor % 2 == 0
    ensures -(divisor / 2) < x - RoundHalfDown(x, divisor) * divisor <= divisor / 2
  {
    var h := divisor / 2;
    var q := RoundHalfDown(x, divisor);
    var y := x + (h - 1);
    assert y == q * divisor + y % divisor;
    assert 0 <= y % divisor < divisor;
  }

  /** For a multiple of the divisor the rounding adds nothing. */
  lemma RoundHalfDownExact(k: nat, divisor: nat)
    requires divisor >= 2
    ensures RoundHalfDown(k * divisor, divisor) == k
  {
    var h := divisor / 2;
    assert 0 <= h - 1 < divisor;
    DivPlusSmall(k, divisor, h - 1);
  }

  /** The overflow test of divide: a wrapped product no longer divides back. */
  lemma ProductOverflow(a: u64, q: nat)
    requires q > 0
    ensures ((a * q) % U64_LIMIT) / q == a <==> a * q < U64_LIMIT
    ensures a * q >= 0
  {
    var v := (a * q) % U64_LIMIT;
    MulSign(a, q);
    if a * q < U64_LIMIT {
      assert v == a * q;
      DivPlusSmall(a, q, 0);
    } else {
      assert v < a * q;
      var w := v / q;
      assert v == w * q + v % q;
      MulSign(w - a, q);
      assert (w - a) * q == w * q - a * q;
    }
  }

  /** The rounding addend of divide does not wrap for a divisor of two or more. */
  lemma RoundingNoWrap(x: u64, divisor: u64)
    requires x < DAY_MULT && 0 < divisor
    ensures divisor >= 2 ==> ((x + (divisor / 2 - 1)) % U64_LIMIT) / divisor == RoundHalfDown(x, divisor)
  {
    if divisor >= 2 {
      assert (x + (divisor / 2 - 1)) % U64_LIMIT == x + (divisor / 2 - 1);
    }
  }

  /** A remainder is at most the number divided. */
  lemma ModAtMost(x: nat, m: nat)
    requires m > 0
    ensures x % m <= x
  {
    assert x == (x / m) * m + x % m;
    MulSign(x / m, m);
  }

  /**
   * divide: the interval in units of `divisor` picoseconds, rounded to nearest
   * (exact halves down), or the largest nat8_t when that does not fit.
   * The day part is computed with wrap-around and checked for overflow.
   * For a divisor of 1 the rounding addend `divisor / 2 - 1` wraps to
   * 2^64 - 1: the result is then one picosecond short, and the largest
   * nat8_t for a whole number of days.
   */
  function Divide(inter: Inter, divisor: u64): (r: u64)
    requires Valid(inter) && 0 < divisor <= DAY_MULT
    ensures divisor >= 2 ==> r == Saturate(inter.days * (DAY_MULT / divisor) + RoundHalfDown(inter.picos, divisor))
    ensures divisor == 1 ==> r == if inter.picos == 0 then U64_MAX else Saturate(inter.days * DAY_MULT + inter.picos - 1)
  {
    var q := DAY_MULT / divisor;
    DivideFacts(inter, divisor);
    var val_days: u64 := (inter.days * q) % U64_LIMIT;
    if val_days / q != inter.days then U64_MAX
    else
      var val_picos: u64 := ((inter.picos + (divisor / 2 - 1)) % U64_LIMIT) / divisor;
      if (val_days + val_picos) % U64_LIMIT < val_days then U64_MAX
      else val_days + val_picos
  }

  /** The arithmetic facts behind each branch of divide. */
  lemma DivideFacts(inter: Inter, divisor: u64)
    requires Valid(inter) && 0 < divisor <= DAY_MULT
    ensures DAY_MULT / divisor > 0
    ensures var p := inter.days * (DAY_MULT / divisor);
      && p >= 0
      && ((p % U64_LIMIT) / (DAY_MULT / divisor) == inter.days <==> p < U64_LIMIT)
      && (p < U64_LIMIT ==> p % U64_LIMIT == p)
    ensures ((inter.picos + (divisor / 2 - 1)) % U64_LIMIT) / divisor < U64_LIMIT
    ensures divisor >= 2 ==> ((inter.picos + (divisor / 2 - 1)) % U64_LIMIT) / divisor == RoundHalfDown(inter.picos, divisor)
  {
    var q := DAY_MULT / divisor;
    assert DAY_MULT == q * divisor + DAY_MULT % divisor;
    ProductOverflow(inter.days, q);
    RoundingNoWrap(inter.picos, divisor);
    DivAtMost((inter.picos + (divisor / 2 - 1)) % U64_LIMIT, divisor);
  }

  /** A quotient by a positive divisor is at most the number divided. */
  lemma DivAtMost(x: nat, d: nat)
    requires d > 0
    ensures x / d <= x
  {
    assert x == (x / d) * d + x % d;
    MulSign(x / d, d);
    if x / d > 0 {
      MulSign(d - 1, x / d);
      assert (x / d) * d == (x / d) * (d - 1) + x / d;
    }
  }

  /** divide_day: the part of the interval below `modulor`, in rounded units of `divisor`. */
  function DivideDay(inter: Inter, modulor: u64, divisor: u64): (r: u64)
    requires Valid(inter) && modulor > 0 && divisor > 0
    ensures divisor >= 2 ==> r == RoundHalfDown(inter.picos % modulor, divisor)
  {
    ModAtMost(inter.picos, modulor);
    RoundingNoWrap(inter.picos % modulor, divisor);
    (((inter.picos % modulor) + (divisor / 2 - 1)) % U64_LIMIT) / divisor
  }

  /** create_inter_of_mult: `val` units of `mult` picoseconds. */
  function CreateInterOfMult(val: u64, mult: u64): (r: Inter)
    requires 0 < mult <= DAY_MULT
    ensures Valid(r)
    ensures r.picos % mult == 0
    ensures r.days * (DAY_MULT / mult) + r.picos / mult == val
  {
    var q := DAY_MULT / mult;
    DivTimes(DAY_MULT, mult);
    UnitSplit(val, q, mult);
    Inter(val / q, (val % q) * mult)
  }

  /** A quotient times its divisor is at most the dividend, and at least 1 when the divisor is. */
  lemma DivTimes(a: nat, d: nat)
    requires 0 < d <= a
    ensures 1 <= a / d && (a / d) * d <= a
  {
    assert a == (a / d) * d + a % d;
  }

  /** val as whole days of q units and a remainder of fewer than q units of mult picoseconds. */
  lemma UnitSplit(val: nat, q: nat, mult: nat)
    requires q > 0 && mult > 0 && q * mult <= DAY_MULT
    ensures (val % q) * mult < DAY_MULT
    ensures ((val % q) * mult) % mult == 0 && ((val % q) * mult) / mult == val % q
    ensures (val / q) * q + val % q == val
  {
    MulLe(mult, val % q, q - 1);
    DivPlusSmall(val % q, mult, 0);
  }

  /**
   * Reading an interval made of `val` units back in the same unit gives `val`:
   * the rounding term divisor / 2 - 1 is below the divisor and the day part
   * cannot overflow because it is at most `val`.
   */
  lemma {:induction false} UnitRoundTrip(val: u64, mult: u64)
    requires 2 <= mult <= DAY_MULT
    ensures Divide(CreateInterOfMult(val, mult), mult) == val
  {
    var q := DAY_MULT / mult;
    var inter := CreateInterOfMult(val, mult);
    assert inter.days == val / q;
    assert inter.picos == (val % q) * mult;
    assert val == (val / q) * q + val % q;
    RoundHalfDownExact(val % q, mult);
  }

  /** get_relation: 2 when left is longer, 0 when shorter, 1 when equal. */
  function GetRelation(left: Inter, right: Inter): (r: byte)
    ensures r <= 2
    ensures r == 1 <==> left == right
    ensures Valid(left) && Valid(right) ==> (r == 2 <==> Picos(left) > Picos(right))
    ensures Valid(left) && Valid(right) ==> (r == 0 <==> Picos(left) < Picos(right))
  {
    if left.days > right.days then 2
    else if left.days < right.days then 0
    else if left.picos > right.picos then 2
    else if left.picos < right.picos then 0
    else 1
  }

  /** The comparison operators of inter_t, each through get_relation. */
  function Eq(left: Inter, right: Inter): (r: bool)
    ensures r <==> left == right
  {
    GetRelation(left, right) == 1
  }

  function Ne(left: Inter, right: Inter): (r: bool)
    ensures r <==> left != right
  {
    GetRelation(left, right) != 1
  }

  function Gt(left: Inter, right: Inter): (r: bool)
    ensures Valid(left) && Valid(right) ==> (r <==> Picos(left) > Picos(right))
  {
    GetRelation(left, right) > 1
  }

  function Lt(left: Inter, right: Inter): (r: bool)
    ensures Valid(left) && Valid(right) ==> (r <==> Picos(left) < Picos(right))
  {
    GetRelation(left, right) < 1
  }

  function Ge(left: Inter, right: Inter): (r: bool)
    ensures Valid(left) && Valid(right) ==> (r <==> Picos(left) >= Picos(right))
  {
    GetRelation(left, right) >= 1
  }

  function Le(left: Inter, right: Inter): (r: bool)
    ensures Valid(left) && Valid(right) ==> (r <==> Picos(left) <= Picos(right))
  {
    GetRelation(left, right) <= 1
  }

  /** The order is total: exactly one of <, == and > holds. */
  lemma Trichotomy(left: Inter, right: Inter)
    ensures (Lt(left, right) && !Eq(left, right) && !Gt(left, right))
         || (!Lt(left, right) && Eq(left, right) && !Gt(left, right))
         || (!Lt(left, right) && !Eq(left, right) && Gt(left, right))
    ensures Ge(left, right) <==> !Lt(left, right)
    ensures Le(left, right) <==> !Gt(left, right)
    ensures Gt(left, right) <==> Lt(right, left)
  {
  }

  /**
   * operator + on intervals: days add and picoseconds add, with one day
   * carried when the picoseconds reach a day. The day count wraps.
   */
  function Add(inter: Inter, addend: Inter): (r: Inter)
    requires Valid(inter) && Valid(addend)
    ensures Valid(r)
    ensures Picos(inter) + Picos(addend) < U64_LIMIT * DAY_MULT ==> Picos(r) == Picos(inter) + Picos(addend)
  {
    var days := (inter.days + addend.days) % U64_LIMIT;
    var picos := inter.picos + addend.picos;
    if picos >= DAY_MULT then Inter((days + 1) % U64_LIMIT, picos - DAY_MULT)
    else Inter(days, picos)
  }

  /**
   * operator - on intervals: the caller must pass inter >= subtrahend; equal
   * intervals give the zero interval, otherwise one day is borrowed when the
   * picoseconds wrap below zero.
   */
  function Sub(inter: Inter, subtrahend: Inter): (r: Inter)
    requires Valid(inter) && Valid(subtrahend) && Ge(inter, subtrahend)
    ensures Valid(r)
    ensures Picos(r) == Picos(inter) - Picos(subtrahend)
  {
    if Gt(inter, subtrahend) then
      var days := inter.days - subtrahend.days;
      var picos := (inter.picos - subtrahend.picos) % U64_LIMIT;
      if picos >= DAY_MULT then Inter(days - 1, (picos + DAY_MULT) % U64_LIMIT)
      else Inter(days, picos)
    else
      Inter(0, 0)
  }

  /** Two valid intervals of the same length are the same interval. */
  lemma PicosInjective(a: Inter, b: Inter)
    requires Valid(a) && Valid(b) && Picos(a) == Picos(b)
    ensures a == b
  {
  }

  /** Subtracting an interval from itself gives the zero interval. */
  lemma SubSelf(inter: Inter)
    requires Valid(inter)
    ensures Sub(inter, inter) == Inter(0, 0)
  {
  }

  /** (a - b) + b == a. */
  lemma SubAdd(a: Inter, b: Inter)
    requires Valid(a) && Valid(b) && Ge(a, b)
    ensures Add(Sub(a, b), b) == a
  {
    var d := Sub(a, b);
    assert Picos(d) + Picos(b) == Picos(a);
    PicosInjective(Add(d, b), a);
  }

  /** The get_* readers: the rounded, saturated length in one unit. */
  function GetSecs(inter: Inter): (r: u64)
    requires Valid(inter)
    ensures r == Saturate(inter.days * 86_400 + RoundHalfDown(inter.picos, SEC_MULT))
  {
    Divide(inter, SEC_MULT)
  }

  function GetMillisecs(inter: Inter): (r: u64)
    requires Valid(inter)
    ensures r == Saturate(inter.days * 86_400_000 + RoundHalfDown(inter.picos, MILLISEC_MULT))
  {
    Divide(inter, MILLISEC_MULT)
  }

  function GetClunks(inter: Inter): (r: u64)
    requires Valid(inter)
    ensures r == Saturate(inter.days * 864_000_000_000 + RoundHalfDown(inter.picos, CLUNK_MULT))
  {
    Divide(inter, CLUNK_MULT)
  }

  function GetNanosecs(inter: Inter): (r: u64)
    requires Valid(inter)
    ensures r == Saturate(inter.days * 86_400_000_000_000 + RoundHalfDown(inter.picos, NANOSEC_MULT))
  {
    Divide(inter, NANOSEC_MULT)
  }

  /** The sub-second readers: the part below one second, in milliseconds or nanoseconds. */
  function GetSecMillisecs(inter: Inter): (r: u64)
    requires Valid(inter)
    ensures r <= 1_000
    ensures r == RoundHalfDown(inter.picos % SEC_MULT, MILLISEC_MULT)
  {
    DivideDay(inter, SEC_MULT, MILLISEC_MULT)
  }

  function GetSecNanosecs(inter: Inter): (r: u64)
    requires Valid(inter)
    ensures r <= 1_000_000_000
    ensures r == RoundHalfDown(inter.picos % SEC_MULT, NANOSEC_MULT)
  {
    DivideDay(inter, SEC_MULT, NANOSEC_MULT)
  }

  /** The create_inter_of_* constructors: `val` whole units. */
  function CreateInterOfSecs(secs: u64): (r: Inter)
    ensures Valid(r) && Picos(r) == secs * SEC_MULT
  {
    var r := CreateInterOfMult(secs, SEC_MULT);
    assert r.picos == (r.picos / SEC_MULT) * SEC_MULT;
    r
  }

  function CreateInterOfMillisecs(millisecs: u64): (r: Inter)
    ensures Valid(r) && Picos(r) == millisecs * MILLISEC_MULT
  {
    var r := CreateInterOfMult(millisecs, MILLISEC_MULT);
    assert r.picos == (r.picos / MILLISEC_MULT) * MILLISEC_MULT;
    r
  }

  function CreateInterOfClunks(clunks: u64): (r: Inter)
    ensures Valid(r) && Picos(r) == clunks * CLUNK_MULT
  {
    var r := CreateInterOfMult(clunks, CLUNK_MULT);
    assert r.picos == (r.picos / CLUNK_MULT) * CLUNK_MULT;
    r
  }

  function CreateInterOfNanosecs(nanosecs: u64): (r: Inter)
    ensures Valid(r) && Picos(r) == nanosecs * NANOSEC_MULT
  {
    var r := CreateInterOfMult(nanosecs, NANOSEC_MULT);
    assert r.picos == (r.picos / NANOSEC_MULT) * NANOSEC_MULT;
    r
  }

  /** get_secs(create_inter_of_secs(v)) == v, and likewise for the other three units. */
  lemma UnitRoundTrips(v: u64)
    ensures GetSecs(CreateInterOfSecs(v)) == v
    ensures GetMillisecs(CreateInterOfMillisecs(v)) == v
    ensures GetClunks(CreateInterOfClunks(v)) == v
    ensures GetNanosecs(CreateInterOfNanosecs(v)) == v
  {
    UnitRoundTrip(v, SEC_MULT);
    UnitRoundTrip(v, MILLISEC_MULT);
    UnitRoundTrip(v, CLUNK_MULT);
    UnitRoundTrip(v, NANOSEC_MULT);
  }

  /** date_t: an interval since the start of the Julian day count. */
  datatype Date = Date(val: Inter)

  /** The comparison operators of date_t compare the intervals. */
  function DateEq(left: Date, right: Date): (r: bool)
    ensures r <==> left == right
  {
    Eq(left.val, right.val)
  }

  function DateNe(left: Date, right: Date): (r: bool)
    ensures r <==> left != right
  {
    Ne(left.val, right.val)
  }

  function DateGt(left: Date, right: Date): (r: bool)
    ensures Valid(left.val) && Valid(right.val) ==> (r <==> Picos(left.val) > Picos(right.val))
  {
    Gt(left.val, right.val)
  }

  function DateLt(left: Date, right: Date): (r: bool)
    ensures Valid(left.val) && Valid(right.val) ==> (r <==> Picos(left.val) < Picos(right.val))
  {
    Lt(left.val, right.val)
  }

  function DateGe(left: Date, right: Date): (r: bool)
    ensures Valid(left.val) && Valid(right.val) ==> (r <==> Picos(left.val) >= Picos(right.val))
  {
    Ge(left.val, right.val)
  }

  function DateLe(left: Date, right: Date): (r: bool)
    ensures Valid(left.val) && Valid(right.val) ==> (r <==> Picos(left.val) <= Picos(right.val))
  {
    Le(left.val, right.val)
  }

  /** date + interval and date - interval move the date; date - date is the interval between. */
  function DateAdd(date: Date, addend: Inter): (r: Date)
    requires Valid(date.val) && Valid(addend)
    ensures Valid(r.val)
    ensures Picos(date.val) + Picos(addend) < U64_LIMIT * DAY_MULT ==> Picos(r.val) == Picos(date.val) + Picos(addend)
  {
    Date(Add(date.val, addend))
  }

  function DateSubInter(date: Date, subtrahend: Inter): (r: Date)
    requires Valid(date.val) && Valid(subtrahend) && Ge(date.val, subtrahend)
    ensures Valid(r.val) && Picos(r.val) == Picos(date.val) - Picos(subtrahend)
  {
    Date(Sub(date.val, subtrahend))
  }

  function DateSub(date: Date, subtrahend: Date): (r: Inter)
    requires Valid(date.val) && Valid(subtrahend.val) && Ge(date.val, subtrahend.val)
    ensures Valid(r) && Picos(r) == Picos(date.val) - Picos(subtrahend.val)
  {
    Sub(date.val, subtrahend.val)
  }

  /** 1970-01-01 00:00 UTC is Julian day 2'440'587 (counted from noon, as the source does). */
  const UNIX_EPOCH: Date := Date(Inter(2_440_587, 0))

  /** create_date_of_unix_time: the epoch plus `unix` seconds. */
  function CreateDateOfUnixTime(unix: u64): (r: Date)
    ensures Valid(r.val)
    ensures Picos(r.val) == Picos(UNIX_EPOCH.val) + unix * SEC_MULT
  {
    DateAdd(UNIX_EPOCH, CreateInterOfSecs(unix))
  }

  /**
   * as_unix_time: whole seconds since the epoch, rounded to nearest; 0 for a
   * date before the epoch or for a count beyond max<time_t>().
   */
  function AsUnixTime(date: Date): (r: u64)
    requires Valid(date.val)
    ensures Picos(date.val) < Picos(UNIX_EPOCH.val) ==> r == 0
    ensures r <= TIME_T_MAX
    ensures Picos(date.val) >= Picos(UNIX_EPOCH.val) && GetSecs(DateSub(date, UNIX_EPOCH)) <= TIME_T_MAX ==> r == GetSecs(DateSub(date, UNIX_EPOCH))
    ensures Picos(date.val) >= Picos(UNIX_EPOCH.val) && GetSecs(DateSub(date, UNIX_EPOCH)) > TIME_T_MAX ==> r == 0
  {
    if DateLt(date, UNIX_EPOCH) then 0
    else
      var secs := GetSecs(DateSub(date, UNIX_EPOCH));
      if secs > TIME_T_MAX then 0 else secs
  }

  /** A Unix time that fits time_t survives the trip into a date and back. */
  lemma UnixTimeRoundTrip(unix: u64)
    requires unix <= TIME_T_MAX
    ensures AsUnixTime(CreateDateOfUnixTime(unix)) == unix
  {
    var date := CreateDateOfUnixTime(unix);
    var inter := DateSub(date, UNIX_EPOCH);
    var secs := CreateInterOfSecs(unix);
    assert Picos(inter) == Picos(secs);
    PicosInjective(inter, secs);
    UnitRoundTrips(unix);
  }
}
