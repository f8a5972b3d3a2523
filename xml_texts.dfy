/** Texts made of plain runs and any number of named references, decoded by
    `unnormalize` (osm2po.rb:116-146): each reference is decoded on its own,
    in place, however many there are and whichever names repeat. */
module XmlTexts {
  import opened Wrappers
  import opened Text
  import opened XmlRefs

  /** A run of characters without `&` or CR, or a `&name;` reference. */
  datatype Piece = Chars(text: string) | Ref(name: string)

  predicate WellFormed(ps: seq<Piece>) {
    forall i :: 0 <= i < |ps| ==> if ps[i].Chars? then Plain(ps[i].text) else IsName(ps[i].name)
  }

  function PieceText(p: Piece): string {
    match p
    case Chars(t) => t
    case Ref(n) => Reference(n)
  }

  /** The text the pieces spell. */
  function Render(ps: seq<Piece>): string {
    if ps == [] then "" else PieceText(ps[0]) + Render(ps[1..])
  }

  /** The names of the references, in order, repeats kept. */
  function RefNames(ps: seq<Piece>): seq<string> {
    if ps == [] then []
    else (if ps[0].Ref? then [ps[0].name] else []) + RefNames(ps[1..])
  }

  /** A name the first two loops replace by its default character. */
  predicate Decodes(n: string, filter: set<string>) {
    n !in filter && DefaultEntity(n).Some?
  }

  /** Each reference decoded on its own: `amp` to `&`, an unfiltered `gt`,
      `lt`, `quot` or `apos` to its character, any other one kept. */
  function DecodedPiece(p: Piece, filter: set<string>): string {
    match p
    case Chars(t) => t
    case Ref(n) =>
      if n == "amp" then "&"
      else if Decodes(n, filter) then [DefaultEntity(n).value]
      else Reference(n)
  }

  function Decoded(ps: seq<Piece>, filter: set<string>): string {
    if ps == [] then "" else DecodedPiece(ps[0], filter) + Decoded(ps[1..], filter)
  }

  /** A named reference between plain runs, however many there are, decodes
      to the pieces decoded one by one. */
  lemma NamedReferences(ps: seq<Piece>, filter: set<string>)
    requires WellFormed(ps)
    ensures UnnormalizeSpec(Render(ps), filter) == Success(Decoded(ps, filter))
  {
    var s := Render(ps);
    RenderClean(ps);
    SpellsRender("", ps);
    assert "" + s == s;
    ScanPieces(s, 0, ps);
    ItemsNames(ps);
    var names := RefNames(ps);
    if names == [] {
      NoRefsDecoded(ps, filter);
    } else {
      DecodePieces(s, 0, ps);
      PartialEmpty(ps, filter);
      var all := NameSet(names);
      assert {} + all == all && all + all == all;
      EntitiesPieces(ps, {}, names, filter);
      DefaultsPieces(ps, all, names, filter);
      RefNamesIn(ps);
      AmpPassPieces(ps, all, filter);
    }
  }

  /** Two named references between plain texts. */
  lemma TwoNamedReferences(a: string, n1: string, m: string, n2: string, b: string, filter: set<string>)
    requires Plain(a) && Plain(m) && Plain(b) && IsName(n1) && IsName(n2)
    ensures UnnormalizeSpec(a + Reference(n1) + m + Reference(n2) + b, filter) ==
      Success(a + DecodedPiece(Ref(n1), filter) + m + DecodedPiece(Ref(n2), filter) + b)
  {
    var ps := [Chars(a)] + ([Ref(n1)] + ([Chars(m)] + ([Ref(n2)] + [Chars(b)])));
    FiveWellFormed(a, n1, m, n2, b);
    RenderFive(a, n1, m, n2, b, filter);
    NamedReferences(ps, filter);
  }

  lemma FiveWellFormed(a: string, n1: string, m: string, n2: string, b: string)
    requires Plain(a) && Plain(m) && Plain(b) && IsName(n1) && IsName(n2)
    ensures WellFormed([Chars(a)] + ([Ref(n1)] + ([Chars(m)] + ([Ref(n2)] + [Chars(b)]))))
  {
    var ps := [Chars(a)] + ([Ref(n1)] + ([Chars(m)] + ([Ref(n2)] + [Chars(b)])));
    assert ps == [Chars(a), Ref(n1), Chars(m), Ref(n2), Chars(b)];
  }

  lemma RenderCons(p: Piece, ps: seq<Piece>, filter: set<string>)
    ensures Render([p] + ps) == PieceText(p) + Render(ps)
    ensures Decoded([p] + ps, filter) == DecodedPiece(p, filter) + Decoded(ps, filter)
  {
    assert ([p] + ps)[1..] == ps;
  }

  lemma Assoc5Left(x1: string, x2: string, x3: string, x4: string, x5: string)
    ensures x1 + (x2 + (x3 + (x4 + (x5 + "")))) == x1 + x2 + x3 + x4 + x5
  {
    assert x5 + "" == x5;
    Assoc(x3, x4, x5);
    Assoc(x2, x3 + x4, x5);
    Assoc(x2, x3, x4);
    Assoc(x1, x2 + x3 + x4, x5);
    Assoc(x1, x2 + x3, x4);
    Assoc(x1, x2, x3);
  }

  lemma RenderFive(a: string, n1: string, m: string, n2: string, b: string, filter: set<string>)
    ensures var ps := [Chars(a)] + ([Ref(n1)] + ([Chars(m)] + ([Ref(n2)] + [Chars(b)])));
      Render(ps) == a + Reference(n1) + m + Reference(n2) + b &&
      Decoded(ps, filter) == a + DecodedPiece(Ref(n1), filter) + m + DecodedPiece(Ref(n2), filter) + b
  {
    var p5: seq<Piece> := [Chars(b)];
    var p4 := [Ref(n2)] + p5;
    var p3 := [Chars(m)] + p4;
    var p2 := [Ref(n1)] + p3;
    RenderCons(Chars(b), [], filter);
    assert [Chars(b)] + [] == p5;
    RenderCons(Ref(n2), p5, filter);
    RenderCons(Chars(m), p4, filter);
    RenderCons(Ref(n1), p3, filter);
    RenderCons(Chars(a), p2, filter);
    Assoc5Left(a, Reference(n1), m, Reference(n2), b);
    Assoc5Left(a, DecodedPiece(Ref(n1), filter), m, DecodedPiece(Ref(n2), filter), b);
  }

  lemma QuotParts()
    ensures Plain("") && Plain("hi") && IsName("quot")
    ensures "" + Reference("quot") + "hi" + Reference("quot") + "" == "&quot;hi&quot;"
    ensures "" + DecodedPiece(Ref("quot"), {}) + "hi" + DecodedPiece(Ref("quot"), {}) + "" == "\"hi\""
  {
    assert NameStart('q') && InClass('u', NameChars) && InClass('o', NameChars) && InClass('t', NameChars);
  }

  /** `&quot;hi&quot;` reads as `"hi"`. */
  lemma QuotExample()
    ensures UnnormalizeSpec("&quot;hi&quot;", {}) == Success("\"hi\"")
  {
    QuotParts();
    TwoNamedReferences("", "quot", "hi", "quot", "", {});
  }

  lemma FilterParts()
    ensures Plain("") && Plain("b") && IsName("lt") && IsName("gt")
    ensures "" + Reference("lt") + "b" + Reference("gt") + "" == "&lt;b&gt;"
    ensures "" + DecodedPiece(Ref("lt"), {"lt"}) + "b" + DecodedPiece(Ref("gt"), {"lt"}) + "" == "&lt;b>"
  {
    assert NameStart('l') && NameStart('g') && InClass('t', NameChars);
  }

  /** A filtered name stays literal next to an unfiltered one. */
  lemma FilterExample()
    ensures UnnormalizeSpec("&lt;b&gt;", {"lt"}) == Success("&lt;b>")
  {
    FilterParts();
    TwoNamedReferences("", "lt", "b", "gt", "", {"lt"});
  }

  // ----- the proof, pass by pass -----

  lemma WellFormedTail(ps: seq<Piece>)
    requires WellFormed(ps) && ps != []
    ensures WellFormed(ps[1..])
    ensures PieceOK(ps[0])
  {
    assert forall i :: 0 <= i < |ps| - 1 ==> ps[1..][i] == ps[i + 1];
  }

  predicate NoCR(t: string) {
    forall k :: 0 <= k < |t| ==> t[k] != '\r'
  }

  /** The text holds no CR, so line-end normalisation leaves it alone. */
  lemma RenderClean(ps: seq<Piece>)
    requires WellFormed(ps)
    ensures NormalizeNewlines(Render(ps)) == Render(ps)
  {
    RenderNoCR(ps);
  }

  lemma {:induction false} RenderNoCR(ps: seq<Piece>)
    requires WellFormed(ps)
    ensures NoCR(Render(ps))
  {
    if ps != [] {
      WellFormedTail(ps);
      RenderNoCR(ps[1..]);
      var h := PieceText(ps[0]);
      if ps[0].Ref? {
        NameRefChars(ps[0].name);
      }
      assert NoCR(h);
      ConcatNoCR(h, Render(ps[1..]));
    }
  }

  lemma ConcatNoCR(h: string, t: string)
    requires NoCR(h) && NoCR(t)
    ensures NoCR(h + t)
  {
    forall k | 0 <= k < |h + t| ensures (h + t)[k] != '\r' {
      if k < |h| {
        assert (h + t)[k] == h[k];
      } else {
        assert (h + t)[k] == t[k - |h|];
      }
    }
  }

  /** The items `scan` returns for the pieces: one name group per reference. */
  function Items(ps: seq<Piece>): seq<Option<string>> {
    if ps == [] then []
    else (if ps[0].Ref? then [Some(ps[0].name)] else []) + Items(ps[1..])
  }

  lemma ItemsHead(ps: seq<Piece>)
    requires ps != []
    ensures Items(ps) == ItemOf(ps[0]) + Items(ps[1..])
  {
  }

  lemma {:induction false} ItemsNames(ps: seq<Piece>)
    ensures Names(Items(ps)) == RefNames(ps) && |Items(ps)| == |RefNames(ps)|
  {
    if ps != [] {
      ItemsNames(ps[1..]);
      if ps[0].Ref? {
        var x := [Some(ps[0].name)] + Items(ps[1..]);
        assert Items(ps) == x && x[0] == Some(ps[0].name) && x[1..] == Items(ps[1..]);
        assert RefNames(ps) == [ps[0].name] + RefNames(ps[1..]);
      } else {
        assert Items(ps) == Items(ps[1..]) && RefNames(ps) == RefNames(ps[1..]);
      }
    }
  }

  /** The pieces spell `s` from position `i` to its end. */
  predicate Spells(s: string, i: nat, ps: seq<Piece>)
    decreases |ps|
  {
    i <= |s| &&
    if ps == [] then i == |s|
    else
      var j := i + |PieceText(ps[0])|;
      j <= |s| && s[i..j] == PieceText(ps[0]) && Spells(s, j, ps[1..])
  }

  lemma {:induction false} SpellsRender(a: string, ps: seq<Piece>)
    ensures Spells(a + Render(ps), |a|, ps)
    decreases |ps|
  {
    if ps == [] {
      assert a + Render(ps) == a;
    } else {
      var h := PieceText(ps[0]);
      var r := Render(ps[1..]);
      SpellsRender(a + h, ps[1..]);
      SplitAt(a, h, r);
      SpellsCons(a + (h + r), |a|, ps);
    }
  }

  lemma SplitAt(a: string, h: string, r: string)
    ensures a + (h + r) == (a + h) + r
    ensures (a + (h + r))[|a|..|a| + |h|] == h
  {
  }

  lemma SpellsHead(s: string, i: nat, ps: seq<Piece>)
    requires ps != [] && Spells(s, i, ps)
    ensures i + |PieceText(ps[0])| <= |s| && s[i..i + |PieceText(ps[0])|] == PieceText(ps[0])
    ensures Spells(s, i + |PieceText(ps[0])|, ps[1..])
  {
  }

  lemma SpellsCons(s: string, i: nat, ps: seq<Piece>)
    requires ps != [] && i + |PieceText(ps[0])| <= |s| && s[i..i + |PieceText(ps[0])|] == PieceText(ps[0])
    requires Spells(s, i + |PieceText(ps[0])|, ps[1..])
    ensures Spells(s, i, ps)
  {
  }

  predicate PieceOK(p: Piece) {
    if p.Chars? then Plain(p.text) else IsName(p.name)
  }

  function ItemOf(p: Piece): seq<Option<string>> {
    if p.Ref? then [Some(p.name)] else []
  }

  lemma {:induction false} ScanPieces(s: string, i: nat, ps: seq<Piece>)
    requires WellFormed(ps) && Spells(s, i, ps)
    ensures Scan(s, i) == Items(ps)
    decreases |ps|
  {
    if ps != [] {
      WellFormedTail(ps);
      ScanPieces(s, i + |PieceText(ps[0])|, ps[1..]);
      ScanCons(s, i, ps);
    }
  }

  lemma ScanCons(s: string, i: nat, ps: seq<Piece>)
    requires ps != [] && PieceOK(ps[0]) && Spells(s, i, ps)
    requires Scan(s, i + |PieceText(ps[0])|) == Items(ps[1..])
    ensures Scan(s, i) == Items(ps)
  {
    ScanStep(s, i, ps[0], Items(ps[1..]));
    ItemsHead(ps);
  }

  /** The scan over one piece. */
  lemma ScanStep(s: string, i: nat, p: Piece, t: seq<Option<string>>)
    requires PieceOK(p) && i + |PieceText(p)| <= |s| && s[i..i + |PieceText(p)|] == PieceText(p)
    requires Scan(s, i + |PieceText(p)|) == t
    ensures Scan(s, i) == ItemOf(p) + t
  {
    if p.Chars? {
      ScanChars(s, i, p.text, t);
      assert ItemOf(p) + t == t;
    } else {
      ScanNamed(s, i, p.name, t);
    }
  }

  lemma ScanChars(s: string, i: nat, c: string, t: seq<Option<string>>)
    requires Plain(c) && i + |c| <= |s| && s[i..i + |c|] == c && Scan(s, i + |c|) == t
    ensures Scan(s, i) == t
  {
    assert forall m :: i <= m < i + |c| ==> s[m] == c[m - i];
    ScanSkip(s, i, i + |c|);
  }

  lemma ScanNamed(s: string, i: nat, n: string, t: seq<Option<string>>)
    requires IsName(n) && i + |n| + 2 <= |s| && s[i..i + |n| + 2] == Reference(n) && Scan(s, i + |n| + 2) == t
    ensures Scan(s, i) == [Some(n)] + t
  {
    var j := i + |n| + 2;
    assert s[i..] == s[i..j] + s[j..];
    ScanRef(s, i, n, s[j..]);
  }

  lemma ScanRef(s: string, i: nat, n: string, rest: string)
    requires IsName(n) && i <= |s| && s[i..] == Reference(n) + rest
    ensures Scan(s, i) == [Some(n)] + Scan(s, i + |n| + 2)
  {
    NameShape(n, rest, s[i..]);
    assert s[..i] + s[i..] == s;
    RefAtShift(s[..i], s[i..]);
  }

  /** The numeric pass on one step: an `&` not followed by `#` is copied. */
  lemma AmpStep(s: string, i: nat, t: string)
    requires i + 1 < |s| && s[i + 1] != '#' && DecodeNumeric(s, i + 1) == Success(t)
    ensures DecodeNumeric(s, i) == Success([s[i]] + t)
  {
  }

  lemma {:induction false} DecodePieces(s: string, i: nat, ps: seq<Piece>)
    requires WellFormed(ps) && Spells(s, i, ps)
    ensures DecodeNumeric(s, i) == Success(s[i..])
    decreases |ps|
  {
    if ps != [] {
      var j := i + |PieceText(ps[0])|;
      SpellsHead(s, i, ps);
      WellFormedTail(ps);
      DecodePieces(s, j, ps[1..]);
      DecodeCons(s, i, ps[0], j);
    } else {
      assert s[i..] == [];
    }
  }

  lemma DecodeCons(s: string, i: nat, p: Piece, j: nat)
    requires PieceOK(p) && j == i + |PieceText(p)| <= |s| && s[i..j] == PieceText(p)
    requires DecodeNumeric(s, j) == Success(s[j..])
    ensures DecodeNumeric(s, i) == Success(s[i..])
  {
    DecodeStep(s, i, p, j, s[j..]);
    SliceJoin(s, i, j);
  }

  lemma SliceJoin(s: string, i: nat, j: nat)
    requires i <= j <= |s|
    ensures s[i..j] + s[j..] == s[i..]
  {
  }

  /** The numeric pass over one piece. */
  lemma DecodeStep(s: string, i: nat, p: Piece, j: nat, t: string)
    requires PieceOK(p) && j == i + |PieceText(p)| <= |s| && s[i..j] == PieceText(p)
    requires DecodeNumeric(s, j) == Success(t)
    ensures DecodeNumeric(s, i) == Success(s[i..j] + t)
  {
    if p.Chars? {
      DecodeChars(s, i, p.text, t);
    } else {
      DecodeNamed(s, i, p.name, t);
    }
  }

  /** The numeric pass copies a plain run… */
  lemma DecodeChars(s: string, i: nat, c: string, t: string)
    requires Plain(c) && i + |c| <= |s| && s[i..i + |c|] == c
    requires DecodeNumeric(s, i + |c|) == Success(t)
    ensures DecodeNumeric(s, i) == Success(s[i..i + |c|] + t)
  {
    assert forall m :: i <= m < i + |c| ==> s[m] == c[m - i];
    DecodeSkip(s, i, i + |c|, t);
  }

  /** …and a named reference, whose `&` is not followed by `#`. */
  lemma DecodeNamed(s: string, i: nat, n: string, t: string)
    requires IsName(n) && i + |n| + 2 <= |s| && s[i..i + |n| + 2] == Reference(n)
    requires DecodeNumeric(s, i + |n| + 2) == Success(t)
    ensures DecodeNumeric(s, i) == Success(s[i..i + |n| + 2] + t)
  {
    var j := i + |n| + 2;
    NamedRest(s, i, n, t);
    AmpStep(s, i, s[i + 1..j] + t);
    AmpJoin(s, i, j, t);
  }

  /** What follows the `&` of a named reference holds no `&`. */
  lemma NamedRest(s: string, i: nat, n: string, t: string)
    requires IsName(n) && i + |n| + 2 <= |s| && s[i..i + |n| + 2] == Reference(n)
    requires DecodeNumeric(s, i + |n| + 2) == Success(t)
    ensures i + 1 < |s| && s[i + 1] != '#'
    ensures DecodeNumeric(s, i + 1) == Success(s[i + 1..i + |n| + 2] + t)
  {
    var j := i + |n| + 2;
    var r := Reference(n);
    NameRefChars(n);
    assert forall m :: i + 1 <= m < j ==> s[m] == r[m - i];
    DecodeSkip(s, i + 1, j, t);
    assert s[i + 1] == n[0];
  }

  lemma AmpJoin(s: string, i: nat, j: nat, t: string)
    requires i < j <= |s|
    ensures [s[i]] + (s[i + 1..j] + t) == s[i..j] + t
  {
  }

  lemma {:induction false} NoRefsDecoded(ps: seq<Piece>, filter: set<string>)
    requires RefNames(ps) == []
    ensures Decoded(ps, filter) == Render(ps)
  {
    if ps != [] {
      assert ps[0].Chars?;
      NoRefsDecoded(ps[1..], filter);
    }
  }

  /** The text part way through the two name loops: the names in `done`
      that decode have been replaced. */
  function Partial(ps: seq<Piece>, done: set<string>, filter: set<string>): string {
    if ps == [] then ""
    else
      var h := match ps[0]
        case Chars(t) => t
        case Ref(n) => if n in done && Decodes(n, filter) then [DefaultEntity(n).value] else Reference(n);
      h + Partial(ps[1..], done, filter)
  }

  function NameSet(names: seq<string>): set<string> {
    if names == [] then {} else {names[0]} + NameSet(names[1..])
  }

  lemma {:induction false} PartialEmpty(ps: seq<Piece>, filter: set<string>)
    ensures Partial(ps, {}, filter) == Render(ps)
  {
    if ps != [] {
      PartialEmpty(ps[1..], filter);
    }
  }

  /** A name that does not decode changes nothing when marked done. */
  lemma {:induction false} PartialIgnores(ps: seq<Piece>, done: set<string>, n: string, filter: set<string>)
    requires !Decodes(n, filter)
    ensures Partial(ps, done + {n}, filter) == Partial(ps, done, filter)
  {
    if ps != [] {
      PartialIgnores(ps[1..], done, n, filter);
    }
  }

  /** Replacing `&n;` meets a reference exactly when it is `&n;` itself:
      another name differs in a character or in where its `;` is. */
  lemma RefPass(k: string, n: string, t: string, rep: string)
    requires IsName(k) && IsName(n)
    ensures ReplaceAll(Reference(k) + t, Reference(n), rep) ==
      (if k == n then rep else Reference(k)) + ReplaceAll(t, Reference(n), rep)
  {
    if k == n {
      ReplaceAllHead(t, Reference(n), rep);
    } else {
      RefMismatch(k, n, t);
      NameRefChars(k);
      MissSkip(Reference(k), t, Reference(n), rep);
    }
  }

  lemma RefMismatch(k: string, n: string, t: string)
    requires IsName(k) && IsName(n) && k != n
    ensures var u := Reference(k) + t; var p := Reference(n); |u| < |p| || u[..|p|] != p
  {
    var u := Reference(k) + t;
    var p := Reference(n);
    if |u| >= |p| {
      if |n| < |k| {
        assert InClass(k[|n|], NameChars);
        assert u[..|p|][|n| + 1] == k[|n|];
      } else if |n| > |k| {
        assert InClass(n[|k|], NameChars);
        assert u[..|p|][|k| + 1] == ';';
      } else {
        assert exists j :: 0 <= j < |k| && k[j] != n[j];
        var j :| 0 <= j < |k| && k[j] != n[j];
        assert u[..|p|][j + 1] == k[j];
      }
    }
  }

  /** A text that does not start with the pattern and has no further
      character the pattern starts with passes unchanged. */
  lemma MissSkip(r: string, t: string, p: string, rep: string)
    requires |p| > 0 && |r| > 0 && forall m :: 0 < m < |r| ==> r[m] != p[0]
    requires |r + t| < |p| || (r + t)[..|p|] != p
    ensures ReplaceAll(r + t, p, rep) == r + ReplaceAll(t, p, rep)
  {
    var u := r + t;
    if |u| >= |p| {
      ReplaceMiss(u, p, rep);
      MissTail(r, t, p, rep);
    } else {
      assert ReplaceAll(t, p, rep) == t;
    }
  }

  /** Where the pattern does not begin, one character is copied. */
  lemma ReplaceMiss(u: string, p: string, rep: string)
    requires |p| > 0 && |u| >= |p| && u[..|p|] != p
    ensures ReplaceAll(u, p, rep) == [u[0]] + ReplaceAll(u[1..], p, rep)
  {
  }

  lemma MissTail(r: string, t: string, p: string, rep: string)
    requires |p| > 0 && |r| > 0 && forall m :: 0 < m < |r| ==> r[m] != p[0]
    ensures [(r + t)[0]] + ReplaceAll((r + t)[1..], p, rep) == r + ReplaceAll(t, p, rep)
  {
    assert (r + t)[1..] == r[1..] + t;
    assert forall m :: 0 <= m < |r[1..]| ==> r[1..][m] == r[m + 1];
    ReplaceAllSkip(r[1..], t, p, rep);
    assert [r[0]] + (r[1..] + ReplaceAll(t, p, rep)) == r + ReplaceAll(t, p, rep);
  }

  lemma DefaultIsName(n: string)
    requires DefaultEntity(n).Some?
    ensures IsName(n) && DefaultEntity(n).value != '&'
  {
    assert NameStart('g') && NameStart('l') && NameStart('q') && NameStart('a');
    assert InClass('t', NameChars) && InClass('u', NameChars) && InClass('o', NameChars);
    assert InClass('p', NameChars) && InClass('s', NameChars);
  }

  /** One replacement of a decoding name, over the whole text. */
  lemma {:induction false} ReplacePieces(ps: seq<Piece>, done: set<string>, n: string, filter: set<string>)
    requires WellFormed(ps) && Decodes(n, filter)
    ensures ReplaceAll(Partial(ps, done, filter), Reference(n), [DefaultEntity(n).value]) == Partial(ps, done + {n}, filter)
  {
    if ps != [] {
      WellFormedTail(ps);
      ReplacePieces(ps[1..], done, n, filter);
      DefaultIsName(n);
      var p := Reference(n);
      var rep := [DefaultEntity(n).value];
      var rest := Partial(ps[1..], done, filter);
      match ps[0]
      case Chars(t) =>
        ReplaceAllSkip(t, rest, p, rep);
      case Ref(k) =>
        if k in done && Decodes(k, filter) {
          DefaultIsName(k);
          ReplaceAllSkip([DefaultEntity(k).value], rest, p, rep);
        } else {
          RefPass(k, n, rest, rep);
        }
    }
  }

  /** The first loop over `names`. */
  lemma {:induction false} EntitiesPieces(ps: seq<Piece>, done: set<string>, names: seq<string>, filter: set<string>)
    requires WellFormed(ps)
    ensures ApplyEntities(Partial(ps, done, filter), names, filter) == Partial(ps, done + NameSet(names), filter)
    decreases |names|
  {
    if names == [] {
      assert done + NameSet(names) == done;
    } else {
      var n := names[0];
      if n !in filter && Entity(n).Some? {
        ReplacePieces(ps, done, n, filter);
      } else {
        PartialIgnores(ps, done, n, filter);
      }
      EntitiesPieces(ps, done + {n}, names[1..], filter);
      assert done + {n} + NameSet(names[1..]) == done + NameSet(names);
    }
  }

  /** The second loop over `names`. */
  lemma {:induction false} DefaultsPieces(ps: seq<Piece>, done: set<string>, names: seq<string>, filter: set<string>)
    requires WellFormed(ps)
    ensures ApplyDefaults(Partial(ps, done, filter), names, filter) == Partial(ps, done + NameSet(names), filter)
    decreases |names|
  {
    if names == [] {
      assert done + NameSet(names) == done;
    } else {
      var n := names[0];
      if n !in filter && DefaultEntity(n).Some? {
        ReplacePieces(ps, done, n, filter);
      } else {
        PartialIgnores(ps, done, n, filter);
      }
      DefaultsPieces(ps, done + {n}, names[1..], filter);
      assert done + {n} + NameSet(names[1..]) == done + NameSet(names);
    }
  }

  predicate RefsIn(ps: seq<Piece>, done: set<string>) {
    forall i :: 0 <= i < |ps| && ps[i].Ref? ==> ps[i].name in done
  }

  lemma {:induction false} RefNamesIn(ps: seq<Piece>)
    ensures RefsIn(ps, NameSet(RefNames(ps)))
  {
    if ps != [] {
      RefNamesIn(ps[1..]);
      var hs := if ps[0].Ref? then [ps[0].name] else [];
      NameSetAppend(hs, RefNames(ps[1..]));
      assert forall i :: 0 < i < |ps| ==> ps[i] == ps[1..][i - 1];
    }
  }

  lemma {:induction false} NameSetAppend(a: seq<string>, b: seq<string>)
    ensures NameSet(a + b) == NameSet(a) + NameSet(b)
  {
    if a != [] {
      assert (a + b)[1..] == a[1..] + b;
      NameSetAppend(a[1..], b);
    } else {
      assert a + b == b;
    }
  }

  /** The final `&amp;` pass, once every name has been through both loops. */
  lemma {:induction false} AmpPassPieces(ps: seq<Piece>, done: set<string>, filter: set<string>)
    requires WellFormed(ps) && RefsIn(ps, done)
    ensures ReplaceAll(Partial(ps, done, filter), "&amp;", "&") == Decoded(ps, filter)
  {
    if ps != [] {
      WellFormedTail(ps);
      assert RefsIn(ps[1..], done) by {
        assert forall i :: 0 <= i < |ps| - 1 ==> ps[1..][i] == ps[i + 1];
      }
      AmpPassPieces(ps[1..], done, filter);
      var rest := Partial(ps[1..], done, filter);
      AmpIsName();
      assert Reference("amp") == "&amp;";
      match ps[0]
      case Chars(t) =>
        ReplaceAllSkip(t, rest, "&amp;", "&");
      case Ref(k) =>
        assert k in done;
        if Decodes(k, filter) {
          DefaultIsName(k);
          ReplaceAllSkip([DefaultEntity(k).value], rest, "&amp;", "&");
        } else {
          RefPass(k, "amp", rest, "&");
        }
    }
  }
}
