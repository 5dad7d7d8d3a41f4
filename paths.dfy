/**
 * The path values of file.cpp: a path is a sequence of components, parsed
 * from text on '/' (and on '\' when the text holds no '/'), joined back with a
 * delimiter, and edited by directory and extension.
 */
module Paths {
  import opened Prelude
  import Text

  const SLASH: byte := 0x2F
  const BACKSLASH: byte := 0x5C
  const DOT: byte := 0x2E

  /** path_t: its components, `cos`. */
  datatype Path = Path(cos: seq<Str>)

  /** path_t::operator bool: a path is truthy when it has a component. */
  predicate IsTruthy(path: Path)
  {
    |path.cos| > 0
  }

  /** '\' separates components only in a text without any '/'. */
  predicate ParseBack(text: Str)
  {
    SLASH !in text
  }

  predicate IsSep(c: byte, parse_back: bool)
  {
    c == SLASH || (c == BACKSLASH && parse_back)
  }

  function Last<T>(s: seq<T>): T
    requires |s| > 0
  {
    s[|s| - 1]
  }

  /** The text cut at every separator: one more piece than there are separators. */
  function Pieces(t: Str, pb: bool): (p: seq<Str>)
    ensures |p| >= 1
    decreases |t|
  {
    if t == [] then [[]]
    else
      var p := Pieces(t[..|t| - 1], pb);
      if IsSep(t[|t| - 1], pb) then p + [[]]
      else p[..|p| - 1] + [Last(p) + [t[|t| - 1]]]
  }

  /** The non-empty strings of ps, in order. */
  function NonEmpty(ps: seq<Str>): seq<Str>
    decreases |ps|
  {
    if ps == [] then []
    else NonEmpty(ps[..|ps| - 1]) + (if Last(ps) == [] then [] else [Last(ps)])
  }

  /** NonEmpty keeps only non-empty strings, each taken from ps. */
  lemma {:induction false} NonEmptyShape(ps: seq<Str>)
    ensures |NonEmpty(ps)| <= |ps|
    ensures forall k :: 0 <= k < |NonEmpty(ps)| ==> NonEmpty(ps)[k] != [] && NonEmpty(ps)[k] in ps
    decreases |ps|
  {
    if ps != [] {
      NonEmptyShape(ps[..|ps| - 1]);
      assert forall x :: x in ps[..|ps| - 1] ==> x in ps;
    }
  }

  /**
   * The components create_path makes of a text: none for the empty text;
   * otherwise the first piece, kept even when empty, then every other piece
   * that is not empty.
   */
  function Components(text: Str): seq<Str>
  {
    if text == [] then []
    else
      var p := Pieces(text, ParseBack(text));
      [p[0]] + NonEmpty(p[1..])
  }

  /** The components a parse has written once it has seen the pieces p: all but the last piece. */
  function Emitted(p: seq<Str>): (r: seq<Str>)
    requires |p| >= 1
    ensures |r| == 0 <==> |p| == 1
  {
    if |p| == 1 then [] else [p[0]] + NonEmpty(p[1..|p| - 1])
  }

  /** The components a parse that ends after the pieces p produces. */
  function Final(p: seq<Str>): seq<Str>
    requires |p| >= 1
  {
    Emitted(p) + (if Last(p) == [] then [] else [Last(p)])
  }

  lemma NonEmptyAppend(ps: seq<Str>, x: Str)
    ensures NonEmpty(ps + [x]) == NonEmpty(ps) + (if x == [] then [] else [x])
  {
    assert (ps + [x])[..|ps|] == ps;
  }

  lemma {:induction false} NonEmptyConcat(a: seq<Str>, b: seq<Str>)
    ensures NonEmpty(a + b) == NonEmpty(a) + NonEmpty(b)
    decreases |b|
  {
    if b != [] {
      var b' := b[..|b| - 1];
      assert a + b == (a + b') + [Last(b)];
      NonEmptyAppend(a + b', Last(b));
      NonEmptyConcat(a, b');
      NonEmptyAppend(b', Last(b));
      assert b' + [Last(b)] == b;
    } else {
      assert a + b == a;
    }
  }

  /** The last piece is the text after the last separator. */
  lemma {:induction false} PiecesLast(t: Str, pb: bool)
    ensures |Last(Pieces(t, pb))| <= |t|
    ensures Last(Pieces(t, pb)) == t[|t| - |Last(Pieces(t, pb))|..]
    decreases |t|
  {
    if t != [] {
      PiecesLast(t[..|t| - 1], pb);
    }
  }

  /** A text with a single piece is that piece. */
  lemma {:induction false} PiecesSingle(t: Str, pb: bool)
    requires |Pieces(t, pb)| == 1
    ensures Pieces(t, pb)[0] == t
    decreases |t|
  {
    if t != [] {
      PiecesSingle(t[..|t| - 1], pb);
      assert t == t[..|t| - 1] + [t[|t| - 1]];
    }
  }

  /** No piece holds a separator. */
  lemma {:induction false} PiecesNoSep(t: Str, pb: bool)
    ensures forall k, j :: 0 <= k < |Pieces(t, pb)| && 0 <= j < |Pieces(t, pb)[k]| ==> !IsSep(Pieces(t, pb)[k][j], pb)
    decreases |t|
  {
    if t != [] {
      var t' := t[..|t| - 1];
      PiecesNoSep(t', pb);
      var p := Pieces(t', pb);
      var q := Pieces(t, pb);
      if !IsSep(t[|t| - 1], pb) {
        forall k, j | 0 <= k < |q| && 0 <= j < |q[k]| ensures !IsSep(q[k][j], pb) {
          if k == |q| - 1 && j == |q[k]| - 1 {
          } else {
            assert q[k][j] == p[k][j];
          }
        }
      }
    }
  }

  /** The first piece is empty only when the text starts with a separator. */
  lemma {:induction false} PiecesFirst(t: Str, pb: bool)
    requires t != [] && Pieces(t, pb)[0] == []
    ensures IsSep(t[0], pb)
    decreases |t|
  {
    var t' := t[..|t| - 1];
    if t' == [] {
      assert t == [t[0]];
    } else {
      var p := Pieces(t', pb);
      if IsSep(t[|t| - 1], pb) {
        assert Pieces(t, pb)[0] == p[0];
      } else if |p| > 1 {
        assert Pieces(t, pb)[0] == p[0];
      }
      PiecesFirst(t', pb);
    }
  }

  /** What one more byte does to the pieces. */
  lemma PiecesSnoc(t: Str, x: byte, pb: bool)
    ensures IsSep(x, pb) ==> Pieces(t + [x], pb) == Pieces(t, pb) + [[]]
    ensures !IsSep(x, pb) ==> Pieces(t + [x], pb) == Pieces(t, pb)[..|Pieces(t, pb)| - 1] + [Last(Pieces(t, pb)) + [x]]
  {
    var s := t + [x];
    assert s[..|s| - 1] == t;
    assert s[|s| - 1] == x;
    var p := Pieces(t, pb);
    assert Pieces(s, pb) == if IsSep(x, pb) then p + [[]] else p[..|p| - 1] + [Last(p) + [x]];
  }

  lemma ReplaceLast(a: seq<Str>, b: seq<Str>, y: Str)
    requires |b| >= 1
    ensures Last(a + b) == Last(b)
    ensures (a + b)[..|a + b| - 1] + [y] == a + (b[..|b| - 1] + [y])
  {
    assert (a + b)[..|a + b| - 1] == a + b[..|b| - 1];
  }

  /** Cutting a text at one separator cuts its pieces there. */
  lemma {:induction false} PiecesSplit(a: Str, c: byte, u: Str, pb: bool)
    requires IsSep(c, pb)
    ensures Pieces(a + [c] + u, pb) == Pieces(a, pb) + Pieces(u, pb)
    decreases |u|
  {
    if u == [] {
      assert a + [c] + u == a + [c];
      PiecesSnoc(a, c, pb);
    } else {
      var u' := u[..|u| - 1];
      var x := u[|u| - 1];
      var front := a + [c] + u';
      PiecesSplit(a, c, u', pb);
      assert a + [c] + u == front + [x];
      assert u == u' + [x];
      PiecesSnoc(front, x, pb);
      PiecesSnoc(u', x, pb);
      var pa := Pieces(a, pb);
      var pu := Pieces(u', pb);
      if !IsSep(x, pb) {
        ReplaceLast(pa, pu, Last(pu) + [x]);
      }
    }
  }

  /** What one separator does to the parse state. */
  lemma EmittedSep(p: seq<Str>)
    requires |p| >= 1
    ensures Emitted(p + [[]]) == Emitted(p) + (if Last(p) != [] || |p| == 1 then [Last(p)] else [])
  {
    var q := p + [[]];
    if |p| > 1 {
      assert q[1..|q| - 1] == p[1..|p| - 1] + [Last(p)];
      NonEmptyAppend(p[1..|p| - 1], Last(p));
    }
  }

  /** What one other byte does to the parse state. */
  lemma EmittedOther(p: seq<Str>, c: byte)
    requires |p| >= 1
    ensures Emitted(p[..|p| - 1] + [Last(p) + [c]]) == Emitted(p)
  {
    var q := p[..|p| - 1] + [Last(p) + [c]];
    if |p| > 1 {
      assert q[0] == p[0];
      assert q[1..|q| - 1] == p[1..|p| - 1];
    }
  }

  /** The components a parse ends with, for any pieces but a lone empty one. */
  lemma FinalOfPieces(p: seq<Str>)
    requires |p| > 1 || (|p| == 1 && p[0] != [])
    ensures Final(p) == [p[0]] + NonEmpty(p[1..])
  {
    if |p| == 1 {
      assert p[1..] == [];
    } else {
      var mid := p[1..|p| - 1];
      assert p[1..] == mid + [Last(p)];
      NonEmptyAppend(mid, Last(p));
    }
  }

  /** The state after the last byte, plus the trailing piece, is the parse. */
  lemma FinalIsComponents(text: Str)
    requires text != []
    ensures Final(Pieces(text, ParseBack(text))) == Components(text)
  {
    var pb := ParseBack(text);
    var p := Pieces(text, pb);
    if |p| == 1 {
      PiecesSingle(text, pb);
    }
    FinalOfPieces(p);
  }

  /** A parse never takes back a component: its count never drops from one byte to the next. */
  lemma FinalStep(t: Str, pb: bool)
    requires t != []
    ensures |Final(Pieces(t[..|t| - 1], pb))| <= |Final(Pieces(t, pb))|
    ensures |Emitted(Pieces(t, pb))| <= |Final(Pieces(t, pb))|
  {
    var p := Pieces(t[..|t| - 1], pb);
    if IsSep(t[|t| - 1], pb) {
      EmittedSep(p);
    } else {
      EmittedOther(p, t[|t| - 1]);
    }
  }

  lemma {:induction false} FinalGrows(text: Str, pb: bool, i: nat)
    requires i <= |text|
    ensures |Final(Pieces(text[..i], pb))| <= |Final(Pieces(text, pb))|
    decreases |text| - i
  {
    if i < |text| {
      FinalGrows(text, pb, i + 1);
      var t := text[..i + 1];
      assert t[..|t| - 1] == text[..i];
      FinalStep(t, pb);
    } else {
      assert text[..i] == text;
    }
  }

  lemma SliceExtend(s: Str, a: nat, b: nat)
    requires a <= b < |s|
    ensures s[a..b + 1] == s[a..b] + [s[b]]
  {
  }

  /** The components a pass over text[..i] has written. */
  ghost function Em(text: Str, pb: bool, i: nat): seq<Str>
    requires i <= |text|
  {
    Emitted(Pieces(text[..i], pb))
  }

  /** The piece a pass over text[..i] is in the middle of. */
  ghost function Cur(text: Str, pb: bool, i: nat): Str
    requires i <= |text|
  {
    Last(Pieces(text[..i], pb))
  }

  /** A separator ends the current piece: what either pass of create_path writes for it. */
  lemma ParseSep(text: Str, pb: bool, i: nat, front: nat)
    requires i < |text| && front <= i && IsSep(text[i], pb)
    requires text[front..i] == Cur(text, pb, i)
    ensures Em(text, pb, i + 1) == Em(text, pb, i) + (if i != front || |Em(text, pb, i)| == 0 then [text[front..i]] else [])
    ensures Cur(text, pb, i + 1) == []
  {
    var pre := text[..i];
    assert text[..i + 1] == pre + [text[i]];
    PiecesSnoc(pre, text[i], pb);
    EmittedSep(Pieces(pre, pb));
  }

  /** Any other byte extends the current piece. */
  lemma ParseOther(text: Str, pb: bool, i: nat, front: nat)
    requires i < |text| && front <= i && !IsSep(text[i], pb)
    requires text[front..i] == Cur(text, pb, i)
    ensures Em(text, pb, i + 1) == Em(text, pb, i)
    ensures Cur(text, pb, i + 1) == text[front..i + 1]
  {
    var pre := text[..i];
    assert text[..i + 1] == pre + [text[i]];
    PiecesSnoc(pre, text[i], pb);
    EmittedOther(Pieces(pre, pb), text[i]);
    SliceExtend(text, front, i);
  }

  /** Either pass writes no more components than the parse has. */
  lemma ParseBound(text: Str, pb: bool, i: nat)
    requires i <= |text|
    ensures |Em(text, pb, i)| <= |Final(Pieces(text, pb))|
  {
    FinalGrows(text, pb, i);
  }

  /** After the last byte, the trailing piece completes the parse. */
  lemma ParseEnd(text: Str, pb: bool, front: nat)
    requires front <= |text| && text[front..] == Cur(text, pb, |text|)
    ensures Final(Pieces(text, pb)) == Em(text, pb, |text|) + (if |text| != front then [text[front..]] else [])
  {
    assert text[..|text|] == text;
  }

  /** The scan of create_path for a '/': '\' separates only when there is none. */
  method ScanParseBack(text: Str) returns (parse_back: bool)
    ensures parse_back == ParseBack(text)
  {
    parse_back := true;
    for i := 0 to |text|
      invariant parse_back == (SLASH !in text[..i])
    {
      assert text[..i + 1] == text[..i] + [text[i]];
      if text[i] == SLASH {
        parse_back := false;
      }
    }
    assert text[..|text|] == text;
  }

  /** The counting pass of create_path. */
  method CountComponents(text: Str, parse_back: bool) returns (n_cos: nat)
    requires text != []
    ensures n_cos == |Final(Pieces(text, parse_back))|
  {
    n_cos := 0;
    var front := 0;
    for i := 0 to |text|
      invariant front <= i
      invariant text[front..i] == Cur(text, parse_back, i)
      invariant n_cos == |Em(text, parse_back, i)|
    {
      ParseBound(text, parse_back, i + 1);
      if text[i] == SLASH || (text[i] == BACKSLASH && parse_back) {
        ParseSep(text, parse_back, i, front);
        if i != front || n_cos == 0 {
          n_cos := n_cos + 1;
        }
        front := i + 1;
      } else {
        ParseOther(text, parse_back, i, front);
      }
    }
    ParseEnd(text, parse_back, front);
    if |text| != front {
      n_cos := n_cos + 1;
    }
  }

  /** cos[seg_i] = x, seen from the prefix it extends. */
  method Store(cos: array<Str>, k: nat, x: Str)
    requires k < cos.Length
    modifies cos
    ensures cos[..k + 1] == old(cos[..k]) + [x]
  {
    cos[k] := x;
    assert cos[..k + 1] == old(cos[..k]) + [x];
  }

  /** The filling pass of create_path: it moves the same cursors as the counting pass. */
  method FillComponents(text: Str, parse_back: bool, cos: array<Str>)
    requires text != [] && cos.Length == |Final(Pieces(text, parse_back))|
    modifies cos
    ensures cos[..] == Final(Pieces(text, parse_back))
  {
    var seg_i := 0;
    var front := 0;
    for i := 0 to |text|
      invariant front <= i && seg_i <= cos.Length
      invariant text[front..i] == Cur(text, parse_back, i)
      invariant cos[..seg_i] == Em(text, parse_back, i)
    {
      ParseBound(text, parse_back, i + 1);
      if text[i] == SLASH || (text[i] == BACKSLASH && parse_back) {
        ParseSep(text, parse_back, i, front);
        if i != front || seg_i == 0 {
          Store(cos, seg_i, text[front..i]);
          seg_i := seg_i + 1;
        }
        front := i + 1;
      } else {
        ParseOther(text, parse_back, i, front);
      }
    }
    ParseEnd(text, parse_back, front);
    if |text| != front {
      Store(cos, seg_i, text[front..]);
      seg_i := seg_i + 1;
    }
    assert cos[..] == cos[..seg_i];
  }

  /**
   * create_path: a counting pass sizes the component sequence, a filling pass
   * with the same cursors writes it, and the two agree.
   */
  method CreatePath(text: Str) returns (path: Path)
    ensures path.cos == Components(text)
  {
    if text == [] {
      return Path([]);
    }
    var parse_back := ScanParseBack(text);
    var n_cos := CountComponents(text, parse_back);
    var cos := new Str[n_cos](_ => []);
    FillComponents(text, parse_back, cos);
    FinalIsComponents(text);
    path := Path(cos[..]);
  }

  /** The empty text makes the empty path and "/" makes one empty component. */
  lemma ComponentsOfEmptyAndRoot()
    ensures Components([]) == []
    ensures Components([SLASH]) == [[]]
  {
    var e: Str := [];
    var none: seq<Str> := [];
    assert e + [SLASH] == [SLASH];
    PiecesSnoc(e, SLASH, false);
    assert Pieces([SLASH], false)[1..] == [e];
    assert none + [e] == [e];
    NonEmptyAppend(none, e);
  }

  /** A path made by create_path is truthy exactly when its text is not empty. */
  lemma CreatedPathTruthy(text: Str)
    ensures IsTruthy(Path(Components(text))) <==> text != []
  {
    if text != [] {
      var p := Pieces(text, ParseBack(text));
      assert Components(text)[0] == p[0];
    }
  }

  /** Only the first component can be empty, and only when the text starts with a separator. */
  lemma ComponentsShape(text: Str)
    ensures forall k :: 1 <= k < |Components(text)| ==> Components(text)[k] != []
    ensures |Components(text)| > 0 && Components(text)[0] == [] ==> IsSep(text[0], ParseBack(text))
  {
    if text != [] {
      var pb := ParseBack(text);
      var p := Pieces(text, pb);
      var ne := NonEmpty(p[1..]);
      NonEmptyShape(p[1..]);
      if p[0] == [] {
        PiecesFirst(text, pb);
      }
      assert Components(text) == [p[0]] + ne;
    }
  }

  /** No component holds a separator that is active. */
  lemma ComponentsNoSep(text: Str)
    ensures forall k, j :: 0 <= k < |Components(text)| && 0 <= j < |Components(text)[k]| ==> !IsSep(Components(text)[k][j], ParseBack(text))
  {
    if text != [] {
      var pb := ParseBack(text);
      var p := Pieces(text, pb);
      var ne := NonEmpty(p[1..]);
      var cos := [p[0]] + ne;
      assert Components(text) == cos;
      PiecesNoSep(text, pb);
      NonEmptyShape(p[1..]);
      forall k, j | 0 <= k < |cos| && 0 <= j < |cos[k]| ensures !IsSep(cos[k][j], pb) {
        if k > 0 {
          assert ne[k - 1] in p[1..];
          var m :| 0 <= m < |p[1..]| && p[1..][m] == ne[k - 1];
          assert p[m + 1] == cos[k];
        }
      }
    }
  }

  lemma SameSlashes(a: Str, c: byte, u: Str)
    ensures ParseBack(a + [c, c] + u) == ParseBack(a + [c] + u)
  {
    var t1 := a + [c, c] + u;
    var t2 := a + [c] + u;
    if SLASH in t1 {
      var k :| 0 <= k < |t1| && t1[k] == SLASH;
      if k <= |a| {
        assert t2[k] == SLASH;
      } else {
        assert t2[k - 1] == SLASH;
      }
    }
    if SLASH in t2 {
      var k :| 0 <= k < |t2| && t2[k] == SLASH;
      if k <= |a| {
        assert t1[k] == SLASH;
      } else {
        assert t1[k + 1] == SLASH;
      }
    }
  }

  lemma PiecesRepeated(a: Str, c: byte, u: Str, pb: bool)
    requires IsSep(c, pb)
    ensures Pieces(a + [c, c] + u, pb) == Pieces(a, pb) + [[]] + Pieces(u, pb)
    ensures Pieces(a + [c] + u, pb) == Pieces(a, pb) + Pieces(u, pb)
  {
    assert a + [c, c] + u == (a + [c]) + [c] + u;
    PiecesSplit(a + [c], c, u, pb);
    PiecesSnoc(a, c, pb);
    PiecesSplit(a, c, u, pb);
  }

  /** An empty piece after the first adds no component. */
  lemma EmptyPieceDropped(pa: seq<Str>, pu: seq<Str>)
    requires |pa| >= 1
    ensures var p1 := pa + [[]] + pu; var p2 := pa + pu;
      [p1[0]] + NonEmpty(p1[1..]) == [p2[0]] + NonEmpty(p2[1..])
  {
    var p1 := pa + [[]] + pu;
    var p2 := pa + pu;
    assert p1[1..] == (pa[1..] + [[]]) + pu;
    assert p2[1..] == pa[1..] + pu;
    NonEmptyConcat(pa[1..] + [[]], pu);
    NonEmptyConcat(pa[1..], pu);
    NonEmptyAppend(pa[1..], []);
  }

  /** A doubled separator counts as one. */
  lemma RepeatedSeparator(a: Str, c: byte, u: Str)
    requires IsSep(c, ParseBack(a + [c] + u))
    ensures Components(a + [c, c] + u) == Components(a + [c] + u)
  {
    var pb := ParseBack(a + [c] + u);
    SameSlashes(a, c, u);
    PiecesRepeated(a, c, u, pb);
    EmptyPieceDropped(Pieces(a, pb), Pieces(u, pb));
  }

  /** A trailing separator adds nothing, as long as it does not change which separators are active. */
  lemma TrailingSeparator(t: Str, c: byte)
    requires t != [] && ParseBack(t + [c]) == ParseBack(t) && IsSep(c, ParseBack(t))
    ensures Components(t + [c]) == Components(t)
  {
    var pb := ParseBack(t);
    var t1 := t + [c];
    assert t1[..|t1| - 1] == t;
    var p := Pieces(t, pb);
    assert Pieces(t1, pb) == p + [[]];
    assert (p + [[]])[1..] == p[1..] + [[]];
    NonEmptyAppend(p[1..], []);
  }

  /** The components joined by delim: the body of as_text(path, delim). */
  function Join(cos: seq<Str>, delim: Str): Str
    decreases |cos|
  {
    if |cos| == 0 then []
    else if |cos| == 1 then cos[0]
    else Join(cos[..|cos| - 1], delim) + delim + Last(cos)
  }

  /** as_text(path, delim): a single empty component prints as the delimiter itself. */
  function PathText(path: Path, delim: Str): Str
  {
    if |path.cos| == 1 && path.cos[0] == [] then delim else Join(path.cos, delim)
  }

  function TotalLen(cos: seq<Str>): nat
    decreases |cos|
  {
    if cos == [] then 0 else TotalLen(cos[..|cos| - 1]) + |Last(cos)|
  }

  /** The joined text has every component byte and n - 1 delimiters. */
  lemma {:induction false} JoinLength(cos: seq<Str>, delim: Str)
    requires |cos| >= 1
    ensures |Join(cos, delim)| == TotalLen(cos) + (|cos| - 1) * |delim|
    decreases |cos|
  {
    if |cos| > 1 {
      JoinLength(cos[..|cos| - 1], delim);
    } else {
      assert cos[..0] == [];
    }
  }

  lemma {:induction false} JoinPrefixLength(cos: seq<Str>, delim: Str, i: nat)
    requires i <= |cos|
    ensures |Join(cos[..i], delim)| <= |Join(cos, delim)|
    decreases |cos|
  {
    if i < |cos| {
      var cos' := cos[..|cos| - 1];
      assert cos'[..i] == cos[..i];
      JoinPrefixLength(cos', delim, i);
    } else {
      assert cos[..i] == cos;
    }
  }

  lemma JoinStep(cos: seq<Str>, delim: Str, i: nat)
    requires i < |cos|
    ensures Join(cos[..i + 1], delim) == Join(cos[..i], delim) + (if i > 0 then delim else []) + cos[i]
  {
    var c := cos[..i + 1];
    assert c[..|c| - 1] == cos[..i];
    if i == 0 {
      assert Join(cos[..0], delim) == [];
    }
  }

  /**
   * as_text(path, delim): a pass adds up the length, a second copies the
   * delimiter before every component but the first, then the component.
   */
  method AsText(path: Path, delim: Str) returns (text: Str)
    ensures text == PathText(path, delim)
  {
    var cos := path.cos;
    if |cos| == 1 && cos[0] == [] {
      text := Text.Clone(delim);
      assert text == delim;
      return;
    }
    var len := 0;
    for i := 0 to |cos|
      invariant len == |Join(cos[..i], delim)|
    {
      JoinStep(cos, delim, i);
      if i != 0 {
        len := len + |delim|;
      }
      len := len + |cos[i]|;
    }
    assert cos[..|cos|] == cos;
    var buf := new byte[len](_ => 0);
    var buf_i := 0;
    for i := 0 to |cos|
      invariant buf_i == |Join(cos[..i], delim)| <= len
      invariant buf[..buf_i] == Join(cos[..i], delim)
    {
      JoinStep(cos, delim, i);
      JoinPrefixLength(cos, delim, i + 1);
      if i != 0 {
        CopyMem(buf, buf_i, delim);
        assert buf[..buf_i + |delim|] == Join(cos[..i], delim) + delim;
        buf_i := buf_i + |delim|;
      }
      if |cos[i]| > 0 {
        CopyMem(buf, buf_i, cos[i]);
        assert buf[..buf_i + |cos[i]|] == Join(cos[..i + 1], delim);
        buf_i := buf_i + |cos[i]|;
      }
    }
    assert buf_i == len;
    text := buf[..];
  }

  /** Pieces rejoined with the separator that cut them give back the text. */
  lemma {:induction false} JoinPieces(t: Str)
    ensures Join(Pieces(t, false), [SLASH]) == t
    decreases |t|
  {
    if t != [] {
      var t' := t[..|t| - 1];
      JoinPieces(t');
      var p := Pieces(t', false);
      var c := t[|t| - 1];
      assert t == t' + [c];
      if c == SLASH {
        assert (p + [[]])[..|p|] == p;
      } else {
        var q := p[..|p| - 1] + [Last(p) + [c]];
        if |p| > 1 {
          assert q[..|q| - 1] == p[..|p| - 1];
        }
      }
    }
  }

  /** Without doubled '/', every piece but the first and last is non-empty; the last is empty exactly after a final '/'. */
  lemma {:induction false} PiecesNonEmpty(t: Str)
    requires forall k :: 0 <= k < |t| - 1 ==> !(t[k] == SLASH && t[k + 1] == SLASH)
    ensures forall k :: 1 <= k < |Pieces(t, false)| - 1 ==> Pieces(t, false)[k] != []
    ensures |Pieces(t, false)| > 1 ==> (Last(Pieces(t, false)) == [] <==> t[|t| - 1] == SLASH)
    decreases |t|
  {
    if t != [] {
      var t' := t[..|t| - 1];
      PiecesNonEmpty(t');
      var p := Pieces(t', false);
      var q := Pieces(t, false);
      if t[|t| - 1] == SLASH {
        assert q == p + [[]];
        if |p| > 1 {
          assert t[|t| - 2] == t'[|t'| - 1];
        }
      } else {
        forall k | 1 <= k < |q| - 1 ensures q[k] != [] {
          assert q[k] == p[k];
        }
      }
    }
  }

  /**
   * A text with a '/', no doubled '/' and no trailing '/' survives parsing
   * and printing with "/" unchanged.
   */
  lemma RoundTrip(text: Str)
    requires SLASH in text && text[|text| - 1] != SLASH
    requires forall k :: 0 <= k < |text| - 1 ==> !(text[k] == SLASH && text[k + 1] == SLASH)
    ensures PathText(Path(Components(text)), [SLASH]) == text
  {
    var p := Pieces(text, false);
    PiecesNonEmpty(text);
    JoinPieces(text);
    NonEmptyAll(p[1..]);
    assert Components(text) == p;
    if |p| == 1 {
      PiecesSingle(text, false);
    }
  }

  lemma {:induction false} NonEmptyAll(ps: seq<Str>)
    requires forall k :: 0 <= k < |ps| ==> ps[k] != []
    ensures NonEmpty(ps) == ps
    decreases |ps|
  {
    if ps != [] {
      NonEmptyAll(ps[..|ps| - 1]);
      assert ps[..|ps| - 1] + [Last(ps)] == ps;
    }
  }

  /** clone(path_t): a fresh component sequence holding a copy of every component. */
  method ClonePath(path: Path) returns (prod: Path)
    ensures prod == path
  {
    var cos := new Str[|path.cos|](_ => []);
    for i := 0 to |path.cos|
      invariant cos[..i] == path.cos[..i]
    {
      var c := Text.Clone(path.cos[i]);
      assert c == path.cos[i];
      cos[i] := c;
    }
    assert path.cos[..|path.cos|] == path.cos;
    prod := Path(cos[..]);
  }

  /** operator + (path_t, str_t): a copy of the path with `right` appended when it is not empty. */
  method Append(path: Path, right: Str) returns (prod: Path)
    ensures right != [] ==> prod.cos == path.cos + [right]
    ensures right == [] ==> prod == path
  {
    prod := ClonePath(path);
    if |right| > 0 {
      var c := Text.Clone(right);
      assert c == right;
      prod := Path(prod.cos + [c]);
    }
  }

  /** get_dir: the path without its last component; empty for at most one component. */
  method GetDir(path: Path) returns (prod: Path)
    ensures |path.cos| <= 1 ==> prod.cos == []
    ensures |path.cos| > 1 ==> prod.cos == path.cos[..|path.cos| - 1]
  {
    if |path.cos| <= 1 {
      return Path([]);
    }
    var cos := new Str[|path.cos| - 1](_ => []);
    for i := 0 to |path.cos| - 1
      invariant cos[..i] == path.cos[..i]
    {
      var c := Text.Clone(path.cos[i]);
      assert c == path.cos[i];
      cos[i] := c;
    }
    prod := Path(cos[..]);
  }

  /** One past the last '.' of s, or 0 when there is none. */
  function DotEnd(s: Str): (i: nat)
    ensures i <= |s|
    ensures i > 0 ==> s[i - 1] == DOT
    ensures forall k :: i <= k < |s| ==> s[k] != DOT
    decreases |s|
  {
    if s == [] then 0
    else if Last(s) == DOT then |s|
    else DotEnd(s[..|s| - 1])
  }

  /** The bytes after the last '.' of the leaf; none without a dot or without a leaf. */
  function Ext(path: Path): (ext: Str)
    ensures DOT !in ext
  {
    if !IsTruthy(path) then []
    else
      var leaf := Last(path.cos);
      var i := DotEnd(leaf);
      if i == 0 then [] else
        assert forall k :: 0 <= k < |leaf[i..]| ==> leaf[i..][k] == leaf[i + k];
        leaf[i..]
  }

  /** get_ext: scans the leaf backwards for a '.'. */
  method GetExt(path: Path) returns (ext: Str)
    ensures ext == Ext(path)
  {
    if |path.cos| == 0 {
      return [];
    }
    var leaf := path.cos[|path.cos| - 1];
    for j := 0 to |leaf|
      invariant forall k :: |leaf| - j <= k < |leaf| ==> leaf[k] != DOT
    {
      var i := |leaf| - j;
      if leaf[i - 1] == DOT {
        assert DotEnd(leaf) == i;
        return leaf[i..];
      }
    }
    assert DotEnd(leaf) == 0;
    return [];
  }

  /**
   * set_ext as a value: a non-empty extension replaces what follows the last
   * '.' of the leaf, or is added after a new '.'; an empty one strips the
   * '.' and what follows, dropping the leaf when it starts with the '.'.
   */
  function WithExt(path: Path, ext: Str): Path
  {
    if !IsTruthy(path) then path
    else
      var n := |path.cos|;
      var leaf := path.cos[n - 1];
      var i := DotEnd(leaf);
      if i > 0 then
        if ext != [] then Path(path.cos[..n - 1] + [leaf[..i] + ext])
        else if i - 1 > 0 then Path(path.cos[..n - 1] + [leaf[..i - 1]])
        else Path(if n <= 1 then [] else path.cos[..n - 1])
      else if ext != [] then Path(path.cos[..n - 1] + [leaf + [DOT] + ext])
      else path
  }

  /** set_ext: the same backwards scan as get_ext, then the leaf or the path is rebuilt. */
  method SetExt(path: Path, ext: Str) returns (prod: Path)
    ensures prod == WithExt(path, ext)
  {
    if |path.cos| == 0 {
      return path;
    }
    var n := |path.cos|;
    var leaf := path.cos[n - 1];
    for j := 0 to |leaf|
      invariant forall k :: |leaf| - j <= k < |leaf| ==> leaf[k] != DOT
    {
      var i := |leaf| - j;
      if leaf[i - 1] == DOT {
        assert DotEnd(leaf) == i;
        if |ext| > 0 {
          var neo := Text.Plus(leaf[..i], ext);
          return Path(path.cos[..n - 1] + [neo]);
        } else if i - 1 > 0 {
          return Path(path.cos[..n - 1] + [leaf[..i - 1]]);
        } else {
          prod := GetDir(path);
          return;
        }
      }
    }
    assert DotEnd(leaf) == 0;
    if |ext| > 0 {
      var dotted := Text.Plus(leaf, [DOT]);
      var neo := Text.Plus(dotted, ext);
      return Path(path.cos[..n - 1] + [neo]);
    }
    return path;
  }

  /** After a '.' and bytes without one, the last '.' is that one. */
  lemma {:induction false} DotEndAfterDot(stem: Str, ext: Str)
    requires |stem| > 0 && Last(stem) == DOT && DOT !in ext
    ensures DotEnd(stem + ext) == |stem|
    decreases |ext|
  {
    if ext == [] {
      assert stem + ext == stem;
    } else {
      var s := stem + ext;
      assert s[..|s| - 1] == stem + ext[..|ext| - 1];
      assert Last(s) == Last(ext);
      DotEndAfterDot(stem, ext[..|ext| - 1]);
    }
  }

  /**
   * After set_ext with a non-empty extension that holds no '.', get_ext
   * returns that extension, and the components before the leaf are unchanged.
   */
  lemma SetExtThenGetExt(path: Path, ext: Str)
    requires IsTruthy(path) && ext != [] && DOT !in ext
    ensures Ext(WithExt(path, ext)) == ext
    ensures |WithExt(path, ext).cos| == |path.cos|
    ensures WithExt(path, ext).cos[..|path.cos| - 1] == path.cos[..|path.cos| - 1]
  {
    var n := |path.cos|;
    var leaf := path.cos[n - 1];
    var i := DotEnd(leaf);
    var stem := if i > 0 then leaf[..i] else leaf + [DOT];
    DotEndAfterDot(stem, ext);
    var neo := stem + ext;
    assert neo[|stem|..] == ext;
    assert WithExt(path, ext).cos == path.cos[..n - 1] + [neo];
  }

  /** Setting the same extension twice is setting it once. */
  lemma SetExtIdempotent(path: Path, ext: Str)
    requires ext != [] && DOT !in ext
    ensures WithExt(WithExt(path, ext), ext) == WithExt(path, ext)
  {
    if IsTruthy(path) {
      SetExtThenGetExt(path, ext);
      var n := |path.cos|;
      var p1 := WithExt(path, ext);
      var leaf1 := p1.cos[n - 1];
      var i1 := DotEnd(leaf1);
      assert i1 > 0 && leaf1[i1..] == ext;
      assert leaf1[..i1] + ext == leaf1;
      assert p1.cos[..n - 1] + [leaf1] == p1.cos;
    }
  }

  /**
   * set_ext with an empty extension strips the last '.' and what follows it
   * from the leaf; a leaf that starts with its only '.' goes away, and a leaf
   * without a '.' stays.
   */
  lemma SetExtEmpty(path: Path)
    requires IsTruthy(path)
    ensures var leaf := Last(path.cos); var i := DotEnd(leaf);
      && (i == 0 ==> WithExt(path, []) == path)
      && (i > 1 ==> WithExt(path, []).cos == path.cos[..|path.cos| - 1] + [leaf[..i - 1]])
      && (i == 1 ==> WithExt(path, []).cos == path.cos[..|path.cos| - 1])
  {
  }

}
