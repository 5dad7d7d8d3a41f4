/**
 * Byte strings of text.cpp: C-string length, concatenation, equality, quoting,
 * the NUL-terminated copy, and unsigned integers printed in decimal with a
 * ',' between groups of three digits.
 */
module Text {
  import opened Prelude

  const DIGIT_0: byte := 48
  const COMMA: byte := 44
  /** U+201C and U+201D in UTF-8. */
  const LEFT_QUOTE: Str := [0xE2, 0x80, 0x9C]
  const RIGHT_QUOTE: Str := [0xE2, 0x80, 0x9D]

  /** A `const char*`: the null pointer, or memory that holds a NUL somewhere. */
  datatype CStr = Null | Ptr(mem: Str)

  predicate Terminated(s: CStr)
  {
    s.Ptr? ==> 0 in s.mem
  }

  /** strlen: the index of the first NUL. */
  function StrLen(mem: Str): (n: nat)
    requires 0 in mem
    ensures n < |mem| && mem[n] == 0 && 0 !in mem[..n]
  {
    if mem[0] == 0 then 0 else
      assert 0 in mem[1..];
      var n := StrLen(mem[1..]);
      assert mem[..n + 1] == [mem[0]] + mem[1..][..n];
      1 + n
  }

  /** get_len: a null pointer has length 0. */
  function GetLen(s: CStr): (n: nat)
    requires Terminated(s)
    ensures s.Null? ==> n == 0
    ensures s.Ptr? ==> n < |s.mem| && s.mem[n] == 0 && 0 !in s.mem[..n]
  {
    if s.Null? then 0 else StrLen(s.mem)
  }

  /** The bytes of a C string before its NUL, as create_str(const char*) copies them. */
  function CBytes(s: CStr): (r: Str)
    requires Terminated(s)
    ensures |r| == GetLen(s) && 0 !in r
    ensures s.Ptr? ==> r + [0] <= s.mem
  {
    if s.Null? then [] else
      var n := GetLen(s);
      assert s.mem[..n] + [0] == s.mem[..n + 1];
      s.mem[..n]
  }

  /** concat: a fresh, zeroed buffer of |left| + |right| bytes with both copied in. */
  method Concat(left: Str, right: Str) returns (prod: Str)
    ensures |prod| == |left| + |right|
    ensures prod[..|left|] == left && prod[|left|..] == right
  {
    var buf := new byte[|left| + |right|](_ => 0);
    CopyMem(buf, 0, left);
    CopyMem(buf, |left|, right);
    prod := buf[..];
  }

  /** operator + (str_t, str_t). */
  method Plus(left: Str, right: Str) returns (prod: Str)
    ensures prod == left + right
  {
    prod := Concat(left, right);
  }

  /** operator + (str_t, const char*). */
  method PlusCStr(left: Str, right: CStr) returns (prod: Str)
    requires Terminated(right)
    ensures prod == left + CBytes(right)
  {
    prod := Concat(left, CBytes(right));
  }

  /** operator + (const char*, str_t). */
  method CStrPlus(left: CStr, right: Str) returns (prod: Str)
    requires Terminated(left)
    ensures prod == CBytes(left) + right
  {
    prod := Concat(CBytes(left), right);
  }

  /** operator == (str_t, str_t). */
  function Eq(left: Str, right: Str): (r: bool)
    ensures r <==> left == right
  {
    IsMemEq(left, right)
  }

  /** operator == (str_t, const char*): compares with the bytes before the NUL. */
  function EqCStr(left: Str, right: CStr): (r: bool)
    requires Terminated(right)
    ensures r <==> |left| == GetLen(right) && forall i :: 0 <= i < |left| ==> left[i] == right.mem[i]
  {
    IsMemEq(left, CBytes(right))
  }

  /** operator == (const char*, str_t). */
  function CStrEq(left: CStr, right: Str): (r: bool)
    requires Terminated(left)
    ensures r <==> |right| == GetLen(left) && forall i :: 0 <= i < |right| ==> right[i] == left.mem[i]
  {
    IsMemEq(CBytes(left), right)
  }

  /** The three operator != overloads negate the matching operator ==. */
  function Ne(left: Str, right: Str): (r: bool)
    ensures r <==> left != right
  {
    !Eq(left, right)
  }

  function NeCStr(left: Str, right: CStr): (r: bool)
    requires Terminated(right)
    ensures r <==> left != CBytes(right)
  {
    !EqCStr(left, right)
  }

  function CStrNe(left: CStr, right: Str): (r: bool)
    requires Terminated(left)
    ensures r <==> CBytes(left) != right
  {
    !CStrEq(left, right)
  }

  /** quote: the text between typographic double quotes. */
  function Quote(text: Str): (r: Str)
    ensures |r| == |text| + 6
    ensures r[..3] == [0xE2, 0x80, 0x9C] && r[|r| - 3..] == [0xE2, 0x80, 0x9D]
    ensures r[3..|r| - 3] == text
  {
    LEFT_QUOTE + text + RIGHT_QUOTE
  }

  /** clone: a byte-identical copy in a fresh buffer. */
  method Clone(text: Str) returns (neo: Str)
    ensures |neo| == |text| && forall i :: 0 <= i < |text| ==> neo[i] == text[i]
  {
    var buf := new byte[|text|](_ => 0);
    CopyMem(buf, 0, text);
    neo := buf[..];
  }

  /** as_strz: the bytes followed by one NUL. */
  method AsStrz(str: Str) returns (prod: Str)
    ensures |prod| == |str| + 1
    ensures prod[..|str|] == str && prod[|str|] == 0
  {
    var buf := new byte[|str| + 1](_ => 0);
    CopyMem(buf, 0, str);
    prod := buf[..];
  }

  /** The characters '0'..'9'. */
  predicate IsDigit(c: byte)
  {
    DIGIT_0 <= c <= DIGIT_0 + 9
  }

  /** Decimal digits of n, most significant first; none for 0. */
  function Digits(n: nat): (d: Str)
    ensures n > 0 <==> |d| > 0
  {
    if n == 0 then [] else Digits(n / 10) + [DIGIT_0 + n % 10]
  }

  /** Every byte is a digit, and there is no leading zero. */
  lemma {:induction false} DigitsShape(n: nat)
    ensures forall k :: 0 <= k < |Digits(n)| ==> IsDigit(Digits(n)[k])
    ensures n > 0 ==> Digits(n)[0] != DIGIT_0
  {
    if n > 0 {
      DigitsShape(n / 10);
      var d := Digits(n);
      assert d == Digits(n / 10) + [DIGIT_0 + n % 10];
      forall k | 0 <= k < |d| ensures IsDigit(d[k]) {
        if k < |d| - 1 {
          assert d[k] == Digits(n / 10)[k];
        }
      }
    }
  }

  /** The number that a string of decimal digits spells. */
  function DecimalValue(d: Str): nat
  {
    if d == [] then 0 else 10 * DecimalValue(d[..|d| - 1]) + (if IsDigit(d[|d| - 1]) then d[|d| - 1] - DIGIT_0 else 0)
  }

  lemma {:induction false} DigitsValue(n: nat)
    ensures DecimalValue(Digits(n)) == n
  {
    if n > 0 {
      DigitsValue(n / 10);
      var d := Digits(n);
      assert d[..|d| - 1] == Digits(n / 10);
    }
  }

  function Pow10(k: nat): (r: nat)
    ensures r >= 1
  {
    if k == 0 then 1 else 10 * Pow10(k - 1)
  }

  lemma {:induction false} DigitsLength(n: nat, k: nat)
    requires n < Pow10(k)
    ensures |Digits(n)| <= k
  {
    if n > 0 {
      DigitsLength(n / 10, k - 1);
    }
  }

  /** A nat8_t has at most 20 decimal digits. */
  lemma DigitsOfU64(n: u64)
    ensures |Digits(n)| <= 20
  {
    assert Pow10(5) == 100_000;
    Pow10Add(5, 5);
    Pow10Add(10, 10);
    DigitsLength(n, 20);
  }

  lemma {:induction false} Pow10Add(a: nat, b: nat)
    ensures Pow10(a + b) == Pow10(a) * Pow10(b)
  {
    if a > 0 {
      Pow10Add(a - 1, b);
    }
  }

  /** The number of decimal digits of n; none for 0. */
  function DigitCount(n: nat): nat
  {
    if n == 0 then 0 else 1 + DigitCount(n / 10)
  }

  lemma {:induction false} DigitCountLength(n: nat)
    ensures DigitCount(n) == |Digits(n)|
  {
    if n > 0 {
      DigitCountLength(n / 10);
    }
  }

  lemma DigitCountOfU64(n: u64)
    ensures DigitCount(n) <= 20
  {
    DigitsOfU64(n);
    DigitCountLength(n);
  }

  /** Digits with a ',' after every digit that has a positive multiple of three digits after it. */
  function Group(d: Str): (r: Str)
    ensures d == [] <==> r == []
    decreases |d|
  {
    if d == [] then [] else [d[0]] + (if |d| > 1 && (|d| - 1) % 3 == 0 then [COMMA] else []) + Group(d[1..])
  }

  /** as_text(nat8_t) as a value: "0" for zero, otherwise the grouped digits. */
  function Grouped(n: nat): Str
  {
    if n == 0 then [DIGIT_0] else Group(Digits(n))
  }

  /** No byte of s is a comma. */
  predicate NoComma(s: Str)
  {
    forall k :: 0 <= k < |s| ==> s[k] != COMMA
  }

  /** Commas in the grouped digits stand exactly every four places from the right end. */
  lemma {:induction false} GroupCommas(d: Str)
    requires |d| > 0 && NoComma(d)
    ensures |Group(d)| == |d| + (|d| - 1) / 3
    ensures forall k :: 0 <= k < |Group(d)| ==> (Group(d)[k] == COMMA <==> (|Group(d)| - k) % 4 == 0)
    decreases |d|
  {
    var g := Group(d);
    var m := (|d| - 1) / 3;
    assert |d| == 3 * m + 1 || |d| == 3 * m + 2 || |d| == 3 * m + 3;
    if |d| == 1 {
      assert g == [d[0]];
    } else {
      var rest := d[1..];
      assert NoComma(rest) by {
        forall k | 0 <= k < |rest| ensures rest[k] != COMMA {
          assert rest[k] == d[k + 1];
        }
      }
      GroupCommas(rest);
      var g' := Group(rest);
      var c := if (|d| - 1) % 3 == 0 then 1 else 0;
      assert g == [d[0]] + (if c == 1 then [COMMA] else []) + g';
      forall k | 0 <= k < |g| ensures g[k] == COMMA <==> (|g| - k) % 4 == 0 {
        if k > c {
          assert g[k] == g'[k - 1 - c];
        }
      }
    }
  }

  /** The string without its commas. */
  function Uncomma(s: Str): (r: Str)
    ensures |r| <= |s|
  {
    if s == [] then [] else (if s[0] == COMMA then [] else [s[0]]) + Uncomma(s[1..])
  }

  lemma {:induction false} UncommaGroup(d: Str)
    requires NoComma(d)
    ensures Uncomma(Group(d)) == d
    decreases |d|
  {
    if d != [] {
      var rest := d[1..];
      assert NoComma(rest) by {
        forall k | 0 <= k < |rest| ensures rest[k] != COMMA {
          assert rest[k] == d[k + 1];
        }
      }
      UncommaGroup(rest);
      var g := Group(d);
      if |d| > 1 && (|d| - 1) % 3 == 0 {
        assert g == [d[0], COMMA] + Group(rest);
        assert g[1..] == [COMMA] + Group(rest);
        assert Uncomma(g[1..]) == Uncomma(Group(rest));
      } else {
        assert g == [d[0]] + Group(rest);
        assert g[1..] == Group(rest);
      }
    }
  }

  lemma DigitsHaveNoComma(n: nat)
    ensures NoComma(Digits(n))
  {
    var d := Digits(n);
    DigitsShape(n);
    forall k | 0 <= k < |d| ensures d[k] != COMMA {
      assert IsDigit(d[k]);
    }
  }

  /**
   * For n > 0 the text is the decimal digits with commas only at every fourth
   * place from the right, so never first or last.
   */
  lemma GroupedCommas(n: nat)
    requires n > 0
    ensures |Grouped(n)| == |Digits(n)| + (|Digits(n)| - 1) / 3
    ensures forall k :: 0 <= k < |Grouped(n)| ==> (Grouped(n)[k] == COMMA <==> (|Grouped(n)| - k) % 4 == 0)
    ensures Grouped(n)[0] != COMMA && Grouped(n)[|Grouped(n)| - 1] != COMMA
  {
    var d := Digits(n);
    DigitsHaveNoComma(n);
    GroupCommas(d);
    var t := Grouped(n);
    assert t == Group(d);
    var j := |d|;
    var m := (j - 1) / 3;
    assert j == 3 * m + 1 || j == 3 * m + 2 || j == 3 * m + 3;
    assert |t| % 4 != 0;
    forall k | 0 <= k < |t| ensures t[k] == COMMA <==> (|t| - k) % 4 == 0 {
      assert t[k] == Group(d)[k];
    }
  }

  /** Without its commas, the text of n > 0 is the plain decimal of n. */
  lemma GroupedUncomma(n: nat)
    requires n > 0
    ensures Uncomma(Grouped(n)) == Digits(n)
    ensures DecimalValue(Uncomma(Grouped(n))) == n
  {
    DigitsHaveNoComma(n);
    UncommaGroup(Digits(n));
    DigitsValue(n);
  }

  lemma GroupedZero()
    ensures Grouped(0) == [DIGIT_0]
  {
  }

  /** The text of 1234567 is "1,234,567". */
  lemma GroupedExample()
    ensures Grouped(1234567) == [49, 44, 50, 51, 52, 44, 53, 54, 55]
  {
    assert Written(1, 6) == [49, 44];
    assert Written(12, 5) == [49, 44, 50];
    assert Written(123, 4) == [49, 44, 50, 51];
    assert Written(1234, 3) == [49, 44, 50, 51, 52, 44];
    assert Written(12345, 2) == [49, 44, 50, 51, 52, 44, 53];
    assert Written(123456, 1) == [49, 44, 50, 51, 52, 44, 53, 54];
    assert Written(1234567, 0) == [49, 44, 50, 51, 52, 44, 53, 54, 55];
    WrittenIsGrouped(1234567);
  }

  /** Commas so far before the next digit, for j digits already written. */
  function CommasFor(j: nat): nat
  {
    if j == 0 then 0 else (j - 1) / 3
  }

  /**
   * Writing digit number j + 1 at write index i puts a ',' first exactly when
   * i is a multiple of four, and leaves the index where the next digit expects it.
   */
  lemma CommaSlot(n: nat, j: nat, i: nat)
    requires n > 0 && DigitCount(n) + j <= 20 && i == 47 - j - CommasFor(j)
    ensures (i % 4 == 0) == (j > 0 && j % 3 == 0)
    ensures DigitCount(n / 10) + (j + 1) <= 20
    ensures i - (if i % 4 == 0 then 2 else 1) == 47 - (j + 1) - CommasFor(j + 1) >= 21
  {
    var m := j / 3;
    assert j == 3 * m || j == 3 * m + 1 || j == 3 * m + 2;
  }

  /** A buffer whose first NUL is at index len reads, as a C string, as its first len bytes. */
  lemma CStringOfBuffer(s: Str, len: nat, w: Str)
    requires len < |s| && s[len] == 0 && s[..len] == w
    requires forall k :: 0 <= k < |w| ==> w[k] != 0
    ensures Terminated(Ptr(s)) && CBytes(Ptr(s)) == w
  {
    var m := StrLen(s);
  }

  /**
   * What the digit loop of as_text(nat8_t) writes for the number n still to
   * print when j digits stand to its right: the higher digits, then n % 10,
   * then a ',' when j is a positive multiple of three.
   */
  function Written(n: nat, j: nat): Str
  {
    if n == 0 then [] else Written(n / 10, j + 1) + [DIGIT_0 + n % 10] + (if j > 0 && j % 3 == 0 then [COMMA] else [])
  }

  /** The loop's text is the grouped decimal: Written(n, |r|) is what sits before digits r. */
  lemma {:induction false} WrittenGroup(n: nat, r: Str)
    ensures Group(Digits(n) + r) == Written(n, |r|) + Group(r)
    decreases n
  {
    if n > 0 {
      var d: byte := DIGIT_0 + n % 10;
      assert Digits(n) + r == Digits(n / 10) + ([d] + r);
      WrittenGroup(n / 10, [d] + r);
      assert ([d] + r)[1..] == r;
    } else {
      assert Digits(n) + r == r;
    }
  }

  /** The loop writes only digits and commas, so never a NUL. */
  lemma {:induction false} WrittenHasNoNul(n: nat, j: nat)
    ensures forall k :: 0 <= k < |Written(n, j)| ==> Written(n, j)[k] != 0
    decreases n
  {
    if n > 0 {
      WrittenHasNoNul(n / 10, j + 1);
      var w := Written(n, j);
      var h := Written(n / 10, j + 1);
      forall k | 0 <= k < |w| ensures w[k] != 0 {
        if k < |h| {
          assert w[k] == h[k];
        }
      }
    }
  }

  lemma WrittenStep(n: nat, j: nat, text: Str)
    requires n > 0
    ensures j > 0 && j % 3 == 0 ==> Written(n, j) + text == Written(n / 10, j + 1) + ([DIGIT_0 + n % 10] + ([COMMA] + text))
    ensures !(j > 0 && j % 3 == 0) ==> Written(n, j) + text == Written(n / 10, j + 1) + ([DIGIT_0 + n % 10] + text)
    ensures DigitCount(n) == 1 + DigitCount(n / 10)
  {
  }

  lemma WrittenIsGrouped(n: nat)
    requires n > 0
    ensures Written(n, 0) == Grouped(n)
  {
    WrittenGroup(n, []);
    assert Digits(n) + [] == Digits(n);
  }

  /** Storing one byte just below a block of text extends the block by that byte. */
  lemma StorePrefix(s: Str, i: nat, c: byte, text: Str)
    requires 0 < i <= 47 < |s| && s[i..47] == text
    ensures s[i - 1 := c][i - 1..47] == [c] + text
  {
    var t := s[i - 1 := c];
    assert t[i..47] == s[i..47];
  }

  /**
   * The digit loop of as_text(nat8_t): writes n0 backwards below index 47, one
   * digit per step and a ',' first whenever the write index is a multiple of four.
   */
  method WriteGrouped(buf: array<byte>, n0: u64) returns (i: nat)
    requires buf.Length == 48 && buf[47] == 0 && n0 != 0
    modifies buf
    ensures 21 <= i <= 47 && buf[47] == 0
    ensures buf[i..47] == Written(n0, 0)
  {
    i := 47;
    var n := n0;
    ghost var j := 0;
    ghost var text: Str := [];
    DigitCountOfU64(n0);
    while n != 0
      invariant 21 <= i <= 47 && buf[47] == 0
      invariant DigitCount(n) + j <= 20
      invariant i == 47 - j - CommasFor(j)
      invariant buf[i..47] == text
      invariant Written(n0, 0) == Written(n, j) + text
      decreases n
    {
      CommaSlot(n, j, i);
      WrittenStep(n, j, text);
      var d: byte := DIGIT_0 + n % 10;
      ghost var next := if i % 4 == 0 then [d] + ([COMMA] + text) else [d] + text;
      assert Written(n0, 0) == Written(n / 10, j + 1) + next;
      if i % 4 == 0 {
        StorePrefix(buf[..], i, COMMA, text);
        i := i - 1;
        buf[i] := COMMA;
        text := [COMMA] + text;
      }
      StorePrefix(buf[..], i, d, text);
      i := i - 1;
      buf[i] := d;
      text := [d] + text;
      assert text == next;
      n := n / 10;
      j := j + 1;
    }
  }

  /**
   * as_text(nat8_t): a NUL at the end of a 48-byte buffer, the digits before
   * it (or a single '0'), and the C string that starts at the last byte written.
   */
  method AsText(n: u64) returns (r: Str)
    ensures r == Grouped(n)
  {
    var buf := new byte[48];
    var i := 48;
    i := i - 1;
    buf[i] := 0;
    if n != 0 {
      i := WriteGrouped(buf, n);
      WrittenIsGrouped(n);
      WrittenHasNoNul(n, 0);
    } else {
      i := i - 1;
      buf[i] := DIGIT_0;
      assert buf[i..47] == [DIGIT_0];
    }
    var s := buf[i..];
    assert s[..47 - i] == buf[i..47] == Grouped(n);
    CStringOfBuffer(s, 47 - i, Grouped(n));
    r := CBytes(Ptr(s));
  }

  /** as_text(nat4_t), as_text(nat2_t) and as_text(nat1_t) widen and print. */
  method AsTextU32(n: u32) returns (r: Str)
    ensures r == Grouped(n)
  {
    r := AsText(n);
  }

  method AsTextU16(n: u16) returns (r: Str)
    ensures r == Grouped(n)
  {
    r := AsText(n);
  }

  method AsTextU8(n: byte) returns (r: Str)
    ensures r == Grouped(n)
  {
    r := AsText(n);
  }
}
