/**
 * platform.cpp: the kernel and kernel version a program runs on, parsed from
 * a release string such as "5.10.3" and printed as "Linux 5.10.3".
 */
module Platform {
  import opened Prelude
  import opened Text

  const SPACE: byte := 32
  const DOT: byte := 46
  const NAT2_MAX: u64 := 0xFFFF

  /** plat_kernel_t */
  datatype Kernel = Unknown | Linux | WinNT

  /** plat_t; every field is zero (unknown) by default. */
  datatype Plat = Plat(kernel: Kernel, major: u16, minor: u16, rev: u16)
  {
    /** plat_t::operator bool */
    predicate IsTruthy()
    {
      kernel != Unknown
    }
  }

  /**
   * get_plat(major, minor, rev): the kernel is the one the program was built
   * for (linux on Linux, winnt on Windows, unknown elsewhere), passed here as
   * `target`; the version numbers are stored as given.
   */
  function GetPlat(target: Kernel, major: u16, minor: u16, rev: u16): (plat: Plat)
    ensures plat.IsTruthy() <==> target != Unknown
    ensures (plat.major, plat.minor, plat.rev) == (major, minor, rev)
  {
    Plat(target, major, minor, rev)
  }

  /**
   * decode_nat(str, i): libc's strtoul from index i, giving the value and the
   * index just past what it read. Its workings are not part of this model;
   * any function of this type stands for it.
   */
  type DecodeNat = (Str, nat) -> (u64, nat)

  /** A version component: the decoded value clamped into nat2_t. */
  function Component(val: u64): (c: u16)
    ensures c as int == Clamp(val, 0, NAT2_MAX)
  {
    Clamp(val, 0, NAT2_MAX)
  }

  /** Whether parsing goes on after a component that ended at `next`, having begun at `at`. */
  predicate GoesOn(s: Str, at: nat, next: nat)
  {
    next != at && next < |s| && s[next] == DOT
  }

  /**
   * The components that get_plat(ver_str) reads from index `at` with `k`
   * slots left: one per slot, until a decode makes no progress, reaches the
   * end of the text, or is not followed by '.'.
   */
  function ParseVer(s: Str, decode: DecodeNat, at: nat, k: nat): (v: seq<u16>)
    ensures k > 0 ==> 1 <= |v| <= k
    ensures k == 0 <==> v == []
    decreases k
  {
    if k == 0 then []
    else
      var next := decode(s, at).1;
      [Component(decode(s, at).0)] + (if GoesOn(s, at, next) then ParseVer(s, decode, next + 1, k - 1) else [])
  }

  /** The three version numbers, those never reached left at zero. */
  function Padded(v: seq<u16>): (n: seq<u16>)
    requires |v| <= 3
    ensures |n| == 3 && n[..|v|] == v
    ensures forall j :: |v| <= j < 3 ==> n[j] == 0
  {
    v + seq(3 - |v|, _ => 0)
  }

  /** get_plat(ver_str) as a value. */
  function PlatOfText(target: Kernel, s: Str, decode: DecodeNat): Plat
  {
    var n := Padded(ParseVer(s, decode, 0, 3));
    GetPlat(target, n[0], n[1], n[2])
  }

  /**
   * get_plat(ver_str): up to three '.'-separated numbers in `n`, decoding each
   * from where the last one stopped.
   */
  method GetPlatOfText(target: Kernel, ver_str: Str, decode: DecodeNat) returns (plat: Plat)
    ensures plat == PlatOfText(target, ver_str, decode)
  {
    var n := new u16[3](_ => 0);
    ghost var all := ParseVer(ver_str, decode, 0, 3);
    var old_at: nat := 0;
    var i := 0;
    assert n[..] == n[..0] + seq(3, _ => 0);
    while i < 3
      invariant 0 <= i <= 3
      invariant i < 3 ==> Reading(n, i, ver_str, decode, old_at, all)
      invariant i == 3 ==> n[..] == all
    {
      var stop;
      old_at, stop := ReadComponent(n, i, ver_str, decode, old_at, all);
      if stop {
        return GetPlat(target, n[0], n[1], n[2]);
      }
      i := i + 1;
    }
    return GetPlat(target, n[0], n[1], n[2]);
  }

  /**
   * Before round i of get_plat(ver_str)'s loop: n holds the components read so
   * far followed by zeros, and what is left to read from `at` completes them.
   */
  ghost predicate Reading(n: array<u16>, i: nat, s: Str, decode: DecodeNat, at: nat, all: seq<u16>)
    reads n
  {
    && i < n.Length == 3
    && n[..] == n[..i] + seq(3 - i, _ => 0)
    && n[..i] + ParseVer(s, decode, at, 3 - i) == all
  }

  /**
   * One round of get_plat(ver_str)'s loop: decode from `old_at` into n[i], and
   * stop unless the decode made progress and a '.' follows before the end.
   */
  method ReadComponent(n: array<u16>, i: nat, ver_str: Str, decode: DecodeNat, old_at: nat, ghost all: seq<u16>)
    returns (next_at: nat, stop: bool)
    requires Reading(n, i, ver_str, decode, old_at, all)
    modifies n
    ensures stop ==> n[..] == Padded(all)
    ensures !stop && i < 2 ==> Reading(n, i + 1, ver_str, decode, next_at, all)
    ensures !stop && i == 2 ==> n[..] == all
  {
    var (val, new_at) := decode(ver_str, old_at);
    ghost var before := n[..i];
    SetComponent(n, i, Component(val));
    ParseStep(ver_str, decode, old_at, 3 - i);
    if new_at == old_at || new_at >= |ver_str| {
      return 0, true;
    }
    if ver_str[new_at] != DOT {
      return 0, true;
    }
    if i < 2 {
      PrefixAdvance(before, ver_str, decode, old_at, 3 - i);
    }
    return new_at + 1, false;
  }

  /** One component of ParseVer. */
  lemma ParseStep(s: Str, decode: DecodeNat, at: nat, k: nat)
    requires k > 0
    ensures ParseVer(s, decode, at, k) == [Component(decode(s, at).0)] +
      (if GoesOn(s, at, decode(s, at).1) then ParseVer(s, decode, decode(s, at).1 + 1, k - 1) else [])
  {
  }

  /** Reading one more component moves it from what is left to the prefix. */
  lemma PrefixAdvance(before: seq<u16>, s: Str, decode: DecodeNat, at: nat, k: nat)
    requires k > 1 && GoesOn(s, at, decode(s, at).1)
    ensures (before + [Component(decode(s, at).0)]) + ParseVer(s, decode, decode(s, at).1 + 1, k - 1)
      == before + ParseVer(s, decode, at, k)
  {
    ParseStep(s, decode, at, k);
  }

  /** `n[i] := c` on the array of components, seen as extending the prefix already read. */
  method SetComponent(n: array<u16>, i: nat, c: u16)
    requires i < n.Length == 3 && n[..] == n[..i] + seq(3 - i, _ => 0)
    modifies n
    ensures n[..i + 1] == old(n[..i]) + [c]
    ensures n[..] == n[..i + 1] + seq(3 - (i + 1), _ => 0)
  {
    n[i] := c;
    assert n[..i + 1] == old(n[..i]) + [c];
    assert n[..] == n[..i + 1] + n[i + 1..];
  }

  /** Every component is clamped to at most 65535, and the first is always read. */
  lemma ParsedFirst(target: Kernel, s: Str, decode: DecodeNat)
    ensures PlatOfText(target, s, decode).kernel == target
    ensures PlatOfText(target, s, decode).major as int == Clamp(decode(s, 0).0, 0, NAT2_MAX)
  {
  }

  /** Parsing stops after a component that made no progress, ended the text, or has no '.' after it. */
  lemma ParsedStops(target: Kernel, s: Str, decode: DecodeNat)
    ensures !GoesOn(s, 0, decode(s, 0).1) ==> PlatOfText(target, s, decode).minor == 0 && PlatOfText(target, s, decode).rev == 0
    ensures var a := decode(s, 0).1 + 1;
      GoesOn(s, 0, decode(s, 0).1) ==>
        && PlatOfText(target, s, decode).minor == Component(decode(s, a).0)
        && (!GoesOn(s, a, decode(s, a).1) ==> PlatOfText(target, s, decode).rev == 0)
        && (GoesOn(s, a, decode(s, a).1) ==> PlatOfText(target, s, decode).rev == Component(decode(s, decode(s, a).1 + 1).0))
  {
    var v := ParseVer(s, decode, 0, 3);
    var a := decode(s, 0).1 + 1;
    if GoesOn(s, 0, decode(s, 0).1) {
      var w := ParseVer(s, decode, a, 2);
      assert v == [Component(decode(s, 0).0)] + w;
      if GoesOn(s, a, decode(s, a).1) {
        var b := decode(s, a).1 + 1;
        assert w == [Component(decode(s, a).0)] + ParseVer(s, decode, b, 1);
        assert ParseVer(s, decode, b, 1) == [Component(decode(s, b).0)];
      }
    }
  }

  /** as_text(plat_kernel_t) */
  function KernelText(kernel: Kernel): (r: Str)
    ensures SPACE !in r && DOT !in r && |r| > 0
  {
    match kernel
    case Unknown => [85, 110, 107, 110, 111, 119, 110]
    case Linux => [76, 105, 110, 117, 120]
    case WinNT => [87, 105, 110, 100, 111, 119, 115]
  }

  /** The three names are distinct, so the name tells the kernel. */
  lemma KernelTextInjective(a: Kernel, b: Kernel)
    ensures KernelText(a) == KernelText(b) ==> a == b
  {
    if KernelText(a) == KernelText(b) {
      assert KernelText(a)[0] == KernelText(b)[0];
      assert KernelText(a)[1] == KernelText(b)[1];
      assert |KernelText(a)| == |KernelText(b)|;
    }
  }

  /**
   * as_text(plat_t): the kernel name, then " major" unless the version is all
   * zero, then ".minor" unless minor and rev are both zero, then ".rev"
   * unless rev is zero; each number printed as as_text(nat2_t) does.
   */
  function PlatText(plat: Plat): Str
  {
    KernelText(plat.kernel) + VersionText(plat)
  }

  /** What as_text(plat_t) appends to the kernel name. */
  function VersionText(plat: Plat): Str
  {
    if plat.major != 0 || plat.minor != 0 || plat.rev != 0 then
      [SPACE] + Grouped(plat.major) + MinorText(plat)
    else []
  }

  function MinorText(plat: Plat): Str
  {
    if plat.minor != 0 || plat.rev != 0 then
      [DOT] + Grouped(plat.minor) + (if plat.rev != 0 then [DOT] + Grouped(plat.rev) else [])
    else []
  }

  lemma {:induction false} GroupHasNoSeparator(d: Str)
    requires forall k :: 0 <= k < |d| ==> IsDigit(d[k])
    ensures SPACE !in Group(d) && DOT !in Group(d)
    decreases |d|
  {
    if d != [] {
      assert forall k :: 0 <= k < |d[1..]| ==> IsDigit(d[1..][k]) by {
        forall k | 0 <= k < |d[1..]| ensures IsDigit(d[1..][k]) {
          assert d[1..][k] == d[k + 1];
        }
      }
      GroupHasNoSeparator(d[1..]);
      assert IsDigit(d[0]);
    }
  }

  /** A number's text is digits and commas only. */
  lemma GroupedHasNoSeparator(n: nat)
    ensures SPACE !in Grouped(n) && DOT !in Grouped(n)
  {
    if n > 0 {
      DigitsShape(n);
      GroupHasNoSeparator(Digits(n));
    }
  }

  /**
   * The text starts with the kernel name; it has a space exactly when some
   * version number is non-zero, two dots when rev is non-zero, one when only
   * minor is, and none otherwise.
   */
  lemma PlatTextParts(plat: Plat)
    ensures |KernelText(plat.kernel)| <= |PlatText(plat)|
    ensures PlatText(plat)[..|KernelText(plat.kernel)|] == KernelText(plat.kernel)
    ensures SPACE in PlatText(plat) <==> (plat.major != 0 || plat.minor != 0 || plat.rev != 0)
    ensures multiset(PlatText(plat))[DOT] == if plat.rev != 0 then 2 else if plat.minor != 0 then 1 else 0
  {
    VersionParts(plat);
    Counts2(KernelText(plat.kernel), VersionText(plat), SPACE);
    Counts2(KernelText(plat.kernel), VersionText(plat), DOT);
  }

  lemma VersionParts(plat: Plat)
    ensures SPACE in VersionText(plat) <==> (plat.major != 0 || plat.minor != 0 || plat.rev != 0)
    ensures multiset(VersionText(plat))[DOT] == if plat.rev != 0 then 2 else if plat.minor != 0 then 1 else 0
  {
    MinorParts(plat);
    var g := Grouped(plat.major);
    GroupedHasNoSeparator(plat.major);
    if plat.major != 0 || plat.minor != 0 || plat.rev != 0 {
      Shown(SPACE, g, MinorText(plat));
    }
  }

  /** A separator, a number's text, and the rest: the number adds no space and no dot. */
  lemma Shown(sep: byte, g: Str, rest: Str)
    requires SPACE !in g && DOT !in g
    ensures SPACE in [sep] + g + rest <==> sep == SPACE || SPACE in rest
    ensures multiset([sep] + g + rest)[DOT] == (if sep == DOT then 1 else 0) + multiset(rest)[DOT]
  {
    assert [sep] + g + rest == [sep] + (g + rest);
  }

  lemma Counts2(a: Str, b: Str, y: byte)
    ensures |a| <= |a + b| && (a + b)[..|a|] == a
    ensures y in a + b <==> y in a || y in b
    ensures multiset(a + b)[y] == multiset(a)[y] + multiset(b)[y]
  {
    assert (a + b)[..|a|] == a;
  }

  /** The minor and rev part has no space and one dot for each number it shows. */
  lemma MinorParts(plat: Plat)
    ensures SPACE !in MinorText(plat)
    ensures multiset(MinorText(plat))[DOT] == if plat.rev != 0 then 2 else if plat.minor != 0 then 1 else 0
  {
    if plat.minor != 0 || plat.rev != 0 {
      var gm := Grouped(plat.minor);
      GroupedHasNoSeparator(plat.minor);
      var r: Str := if plat.rev != 0 then [DOT] + Grouped(plat.rev) else [];
      if plat.rev != 0 {
        GroupedHasNoSeparator(plat.rev);
        Shown(DOT, Grouped(plat.rev), []);
        assert r == [DOT] + Grouped(plat.rev) + [];
        assert SPACE !in r && multiset(r)[DOT] == 1;
      } else {
        assert r == [];
      }
      assert MinorText(plat) == [DOT] + gm + r;
      Shown(DOT, gm, r);
    } else {
      assert MinorText(plat) == [];
    }
  }

  /** An all-zero version prints as the bare kernel name. */
  lemma PlatTextNoVersion(kernel: Kernel)
    ensures PlatText(Plat(kernel, 0, 0, 0)) == KernelText(kernel)
  {
  }

  /** Linux 5.0.0 prints as "Linux 5", and 6.1.0 on Windows as "Windows 6.1". */
  lemma PlatTextExamples()
    ensures PlatText(Plat(Linux, 5, 0, 0)) == [76, 105, 110, 117, 120, 32, 53]
    ensures PlatText(Plat(WinNT, 6, 1, 0)) == [87, 105, 110, 100, 111, 119, 115, 32, 54, 46, 49]
  {
    assert Digits(5) == [53];
    assert Digits(6) == [54];
    assert Digits(1) == [49];
  }
}
