/** The catalog string codec: `String#gettext_escape!` (osm2po.rb:31-38) and
    `POParser#unescape` (po2osm.rb:58-64). Both are chains of literal
    substitutions. The escaper runs on a fresh copy of the text at each call
    site (osm2po.rb:82, 86), so its in-place rewriting is modelled as a value. */
module PoEscape {
  import opened Text

  /** The characters `gettext_escape!` rewrites. Backslash is not one of them. */
  const Escaped: set<char> := {'"', '\t', '\r', '\n'}

  /** The letter after the backslash in the two-character escape of `c`. */
  function Code(c: char): char {
    if c == '\t' then 't' else if c == '\r' then 'r' else if c == '\n' then 'n' else c
  }

  /** Reference definition: escape exactly the characters of `S`, one
      character at a time. */
  function Enc(S: set<char>, s: string): string {
    if s == [] then [] else Piece(S, s[0]) + Enc(S, s[1..])
  }

  function Piece(S: set<char>, c: char): string {
    if c in S then ['\\', Code(c)] else [c]
  }

  /** `gettext_escape!`: four successive substitutions, in source order.
      Text with none of the four characters comes back unchanged. */
  function Escape(s: string): (r: string)
    ensures (forall i :: 0 <= i < |s| ==> s[i] !in Escaped) ==> r == s
  {
    var a := ReplaceAll(s, "\"", "\\\"");
    var b := ReplaceAll(a, "\t", "\\t");
    var c := ReplaceAll(b, "\r", "\\r");
    assert (forall i :: 0 <= i < |s| ==> s[i] !in Escaped) ==> ReplaceAll(c, "\n", "\\n") == s by {
      if forall i :: 0 <= i < |s| ==> s[i] !in Escaped {
        ReplaceAllAbsent(s, "\"", "\\\"");
        ReplaceAllAbsent(s, "\t", "\\t");
        ReplaceAllAbsent(s, "\r", "\\r");
        ReplaceAllAbsent(s, "\n", "\\n");
      }
    }
    ReplaceAll(c, "\n", "\\n")
  }

  /** `POParser#unescape`: `\n`, `\t`, `\r`, `\"`, in that order. Every
      pattern starts with a backslash, so text without one is unchanged. */
  function Unescape(s: string): (r: string)
    ensures NoBackslash(s) ==> r == s
  {
    var a := ReplaceAll(s, "\\n", "\n");
    var b := ReplaceAll(a, "\\t", "\t");
    var c := ReplaceAll(b, "\\r", "\r");
    assert NoBackslash(s) ==> ReplaceAll(c, "\\\"", "\"") == s by {
      if NoBackslash(s) {
        ReplaceAllAbsent(s, "\\n", "\n");
        ReplaceAllAbsent(s, "\\t", "\t");
        ReplaceAllAbsent(s, "\\r", "\r");
        ReplaceAllAbsent(s, "\\\"", "\"");
      }
    }
    ReplaceAll(c, "\\\"", "\"")
  }

  predicate NoBackslash(s: string) {
    forall i :: 0 <= i < |s| ==> s[i] != '\\'
  }

  /** No tab, CR or LF occurs in `s`. */
  predicate NoControl(s: string) {
    forall i :: 0 <= i < |s| ==> s[i] != '\t' && s[i] != '\r' && s[i] != '\n'
  }

  /** Every double quote in `s` is immediately preceded by a backslash. */
  predicate QuotesProtected(s: string) {
    forall i :: 0 <= i < |s| && s[i] == '"' ==> 0 < i && s[i - 1] == '\\'
  }

  lemma {:induction false} EncNothing(s: string)
    ensures Enc({}, s) == s
  {
    if s != [] {
      EncNothing(s[1..]);
      assert [s[0]] + s[1..] == s;
    }
  }

  lemma {:induction false} EncAppend(S: set<char>, a: string, b: string)
    ensures Enc(S, a + b) == Enc(S, a) + Enc(S, b)
  {
    if a == [] {
      assert a + b == b;
    } else {
      assert (a + b)[0] == a[0] && (a + b)[1..] == a[1..] + b;
      EncAppend(S, a[1..], b);
    }
  }

  /** One more single-character substitution extends the escaped set. */
  lemma {:induction false} AddEscape(S: set<char>, ch: char, s: string)
    requires ch !in S && ch != '\\'
    requires forall c :: c in S ==> Code(c) != ch
    ensures ReplaceAll(Enc(S, s), [ch], ['\\', Code(ch)]) == Enc(S + {ch}, s)
  {
    if s != [] {
      var p := Piece(S, s[0]);
      ReplaceCharAppend(p, Enc(S, s[1..]), ch, ['\\', Code(ch)]);
      AddEscape(S, ch, s[1..]);
      if s[0] == ch {
        assert ReplaceAll(p, [ch], ['\\', Code(ch)]) == ['\\', Code(ch)] by {
          assert p[..1] == [ch];
          assert p[1..] == [];
        }
      } else {
        ReplaceAllAbsent(p, [ch], ['\\', Code(ch)]);
      }
    }
  }

  lemma ReplacePassChar(c: char, y: string, pat: string, rep: string)
    requires |pat| > 0 && c != pat[0]
    ensures ReplaceAll([c] + y, pat, rep) == [c] + ReplaceAll(y, pat, rep)
  {
    var x := [c] + y;
    assert x[1..] == y;
    if |x| >= |pat| {
      assert x[..|pat|][0] == c;
    }
  }

  /** Unescaping the piece of one character that is not a backslash. */
  lemma RemoveStep(S: set<char>, ch: char, c: char, t: string)
    requires ch in S && S <= Escaped && c != '\\'
    ensures ReplaceAll(Piece(S, c) + t, ['\\', Code(ch)], [ch])
         == Piece(S - {ch}, c) + ReplaceAll(t, ['\\', Code(ch)], [ch])
  {
    var pat := ['\\', Code(ch)];
    var x := Piece(S, c) + t;
    if c == ch {
      assert x[..2] == pat && x[2..] == t;
    } else if c in S {
      assert Code(c) != Code(ch);
      assert x[..2] != pat by { assert x[..2][1] == Code(c); }
      assert x[1..] == [Code(c)] + t;
      ReplacePassChar(Code(c), t, pat, [ch]);
    } else {
      assert x == [c] + t;
      ReplacePassChar(c, t, pat, [ch]);
    }
  }

  /** One two-character unescape undoes the escape of one character, as long
      as the original text had no backslash of its own. */
  lemma {:induction false} RemoveEscape(S: set<char>, ch: char, s: string)
    requires ch in S && S <= Escaped && NoBackslash(s)
    ensures ReplaceAll(Enc(S, s), ['\\', Code(ch)], [ch]) == Enc(S - {ch}, s)
  {
    if s != [] {
      assert NoBackslash(s[1..]) by {
        forall i | 0 <= i < |s[1..]| ensures s[1..][i] != '\\' {
          assert s[1..][i] == s[i + 1];
        }
      }
      RemoveEscape(S, ch, s[1..]);
      RemoveStep(S, ch, s[0], Enc(S, s[1..]));
    }
  }

  /** The substitution chain of `gettext_escape!` escapes each of `"`, tab,
      CR and LF on its own, and nothing else (no backslash in particular). */
  lemma EscapeCharwise(s: string)
    ensures Escape(s) == Enc(Escaped, s)
  {
    var s0: set<char>, s1: set<char>, s2: set<char>, s3: set<char> := {}, {'"'}, {'"', '\t'}, {'"', '\t', '\r'};
    EncNothing(s);
    AddEscape(s0, '"', s);
    assert s0 + {'"'} == s1;
    AddEscape(s1, '\t', s);
    assert s1 + {'\t'} == s2;
    AddEscape(s2, '\r', s);
    assert s2 + {'\r'} == s3;
    AddEscape(s3, '\n', s);
    assert s3 + {'\n'} == Escaped;
  }

  /** Round trip: `unescape` inverts `gettext_escape!` on every text without
      a backslash. */
  lemma UnescapeEscape(s: string)
    requires NoBackslash(s)
    ensures Unescape(Escape(s)) == s
  {
    EscapeCharwise(s);
    RemoveEscape(Escaped, '\n', s);
    assert Escaped - {'\n'} == {'"', '\t', '\r'};
    RemoveEscape({'"', '\t', '\r'}, '\t', s);
    assert {'"', '\t', '\r'} - {'\t'} == {'"', '\r'};
    RemoveEscape({'"', '\r'}, '\r', s);
    assert {'"', '\r'} - {'\r'} == {'"'};
    RemoveEscape({'"'}, '"', s);
    assert {'"'} - {'"'} == {};
    EncNothing(s);
  }

  /** Because backslash is not escaped, text holding a backslash followed by
      `n` does not survive the round trip. */
  lemma BackslashBreaksRoundTrip()
    ensures Escape("\\n") == "\\n"
    ensures Unescape(Escape("\\n")) == "\n"
  {
    EscapeCharwise("\\n");
    assert Enc(Escaped, "\\n") == "\\" + Enc(Escaped, "n");
    assert Enc(Escaped, "n") == "n" + Enc(Escaped, "");
    var u := "\\n";
    assert u[..2] == "\\n" && u[2..] == "";
    assert ReplaceAll(u, "\\n", "\n") == "\n";
  }

  lemma {:induction false} EncProperties(s: string)
    ensures NoControl(Enc(Escaped, s))
    ensures QuotesProtected(Enc(Escaped, s))
  {
    if s != [] {
      EncProperties(s[1..]);
      var p := Piece(Escaped, s[0]);
      var t := Enc(Escaped, s[1..]);
      var r := p + t;
      forall i | 0 <= i < |r| ensures r[i] != '\t' && r[i] != '\r' && r[i] != '\n' {
        if i >= |p| { assert r[i] == t[i - |p|]; }
      }
      forall i | 0 <= i < |r| && r[i] == '"' ensures 0 < i && r[i - 1] == '\\' {
        if i >= |p| {
          assert r[i] == t[i - |p|];
          if i > |p| { assert r[i - 1] == t[i - 1 - |p|]; }
        }
      }
    }
  }

  /** `gettext_escape!` leaves no tab, CR or LF, so its result fits on one
      catalog line, and every quote in it is escaped. */
  lemma EscapeSafe(s: string)
    ensures NoControl(Escape(s)) && QuotesProtected(Escape(s))
  {
    EscapeCharwise(s);
    EncProperties(s);
  }
}
