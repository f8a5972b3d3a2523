/** Export followed by import: the catalog text `xgettext` writes
    (osm2po.rb:75-87) is read back by `POParser#parse` (po2osm.rb:25-55) as
    one entry naming the element, the key and the decoded source text. */
module RoundTrip {
  import opened Wrappers
  import opened Text
  import opened Rules
  import opened XmlRefs
  import opened PoEscape
  import opened PoParse
  import opened Extract

  /** No line break inside `s`. */
  predicate OneLine(s: string) {
    forall i :: 0 <= i < |s| ==> s[i] != '\n' && s[i] != '\r'
  }

  /** Lines joined, each followed by LF. */
  function Join(ls: seq<string>): string {
    if ls == [] then "" else ls[0] + "\n" + Join(ls[1..])
  }

  lemma {:induction false} JoinAppend(a: seq<string>, b: seq<string>)
    ensures Join(a + b) == Join(a) + Join(b)
  {
    if a == [] {
      assert a + b == b;
    } else {
      assert (a + b)[0] == a[0] && (a + b)[1..] == a[1..] + b;
      JoinAppend(a[1..], b);
    }
  }

  lemma ChompLF(l: string)
    requires OneLine(l)
    ensures Chomp(l + "\n") == l
  {
    var w := l + "\n";
    assert w[..|w| - 1] == l;
    if |w| >= 2 {
      assert w[|w| - 2] == l[|l| - 1];
      assert w[|w| - 2..] != "\r\n" by { assert w[|w| - 2..][0] == w[|w| - 2]; }
    }
  }

  lemma LinesCons(l: string, rest: string)
    requires OneLine(l)
    ensures Lines(l + "\n" + rest) == [l] + Lines(rest)
  {
    var text := l + "\n" + rest;
    assert forall j :: 0 <= j < |l| ==> text[j] == l[j];
    IndexOfAt(text, '\n', |l|);
    assert text[..|l| + 1] == l + "\n";
    assert text[|l| + 1..] == rest;
    ChompLF(l);
  }

  /** Splitting joined one-line texts gives them back. */
  lemma {:induction false} LinesJoin(ls: seq<string>)
    requires forall i :: 0 <= i < |ls| ==> OneLine(ls[i])
    ensures Lines(Join(ls)) == ls
  {
    if ls != [] {
      LinesCons(ls[0], Join(ls[1..]));
      assert forall i :: 0 < i < |ls| ==> ls[i] == ls[1..][i - 1];
      LinesJoin(ls[1..]);
    }
  }

  function CommentTexts(tags: seq<(string, string)>): seq<string> {
    if tags == [] then []
    else
      var (k, v) := tags[|tags| - 1];
      CommentTexts(tags[..|tags| - 1]) + [CommentText(k, v)]
  }

  lemma {:induction false} CommentsJoin(tags: seq<(string, string)>)
    ensures CommentLines(tags) == Join(CommentTexts(tags))
    ensures |CommentTexts(tags)| == |tags|
    ensures forall i :: 0 <= i < |tags| ==> CommentTexts(tags)[i] == CommentText(tags[i].0, tags[i].1)
  {
    if tags != [] {
      var init := tags[..|tags| - 1];
      var (k, v) := tags[|tags| - 1];
      var c := CommentText(k, v);
      CommentsJoin(init);
      assert CommentTexts(tags) == CommentTexts(init) + [c];
      JoinAppend(CommentTexts(init), [c]);
      assert Join([c]) == c + "\n" + "";
      assert CommentLines(tags) == CommentLines(init) + (c + "\n");
      forall i | 0 <= i < |tags|
        ensures CommentTexts(tags)[i] == CommentText(tags[i].0, tags[i].1)
      {
        if i < |init| {
          assert init[i] == tags[i];
        }
      }
    }
  }

  /** Comment lines leave the parser's state alone. */
  lemma {:induction false} SkipComments(cs: seq<string>, rest: seq<string>, st: State)
    requires forall i :: 0 <= i < |cs| ==> |cs[i]| >= 2 && cs[i][..2] == "#."
    ensures ParseFrom(cs + rest, st) == ParseFrom(rest, st)
  {
    if cs != [] {
      var l := cs[0];
      assert l[..2][1] == '.';
      assert (cs + rest)[0] == l && (cs + rest)[1..] == cs[1..] + rest;
      assert !StartsWith(l, "#: ") by { if |l| >= 3 { assert l[..3][1] == l[..2][1]; } }
      assert !StartsWith(l, "msgid ") && !StartsWith(l, "msgstr ") by {
        assert l[0] == '#';
      }
      assert Step(st, l) == Success(st);
      assert ParseFrom(cs + rest, st) == ParseFrom(cs[1..] + rest, st);
      assert forall i :: 0 < i < |cs| ==> cs[i] == cs[1..][i - 1];
      SkipComments(cs[1..], rest, st);
    } else {
      assert cs + rest == rest;
    }
  }

  /** The msgid line reads back as the text between the quotes, unescaped. */
  lemma MsgIdLine(text: string, st: State)
    requires st.entry.Some?
    ensures Step(st, MsgText("msgid", text)) ==
      Success(State(st.entries, Some(st.entry.value.(msgid := Some(Unescape(text))))))
  {
    MsgIdShape(text);
  }

  lemma MsgIdShape(text: string)
    ensures var l := MsgText("msgid", text);
      l != "" && !StartsWith(l, "#: ") && StartsWith(l, "msgid ") && Unquote(l[6..]) == Some(text)
  {
    var l := MsgText("msgid", text);
    assert l[0] == 'm';
    assert l[..6] == "msgid ";
    var p := l[6..];
    assert p == "\"" + text + "\"";
    assert p[1..|p| - 1] == text;
  }

  /** So does the msgstr line. */
  lemma MsgStrLine(text: string, st: State)
    requires st.entry.Some?
    ensures Step(st, MsgText("msgstr", text)) ==
      Success(State(st.entries, Some(st.entry.value.(msgstr := Some(Unescape(text))))))
  {
    MsgStrShape(text);
  }

  lemma MsgStrShape(text: string)
    ensures var l := MsgText("msgstr", text);
      l != "" && !StartsWith(l, "#: ") && !StartsWith(l, "msgid ") && StartsWith(l, "msgstr ") &&
      Unquote(l[7..]) == Some(text)
  {
    var l := MsgText("msgstr", text);
    assert l[0] == 'm';
    assert l[..6] != "msgid " by { assert l[..6][3] == 's'; }
    assert l[..7] == "msgstr ";
    var p := l[7..];
    assert p == "\"" + text + "\"";
    assert p[1..|p| - 1] == text;
  }

  lemma OneLineConcat(a: string, b: string)
    requires OneLine(a) && OneLine(b)
    ensures OneLine(a + b)
  {
    forall i | 0 <= i < |a + b| ensures (a + b)[i] != '\n' && (a + b)[i] != '\r' {
      if i < |a| { assert (a + b)[i] == a[i]; } else { assert (a + b)[i] == b[i - |a|]; }
    }
  }

  /** The lines of a block whose decoded source text is `d` and whose
      escaped translation is `x`. */
  function BlockTexts(e: Record, key: string, d: string, x: string): seq<string> {
    [""] + (CommentTexts(e.tags) +
      [RefText(e, key), MsgText("msgid", Escape(d)), MsgText("msgstr", x)])
  }

  /** The escaped translation a successful block carries. */
  function StrText(e: Record, key: string, lang: string): string
    requires Lookup(e.tags, key + ":" + lang).Some? ==> UnnormalizeSpec(Lookup(e.tags, key + ":" + lang).value, {}).Success?
  {
    match Lookup(e.tags, key + ":" + lang)
    case None => ""
    case Some(tr) => Escape(UnnormalizeSpec(tr, {}).value)
  }

  /** The block text is the joined lines. */
  lemma JoinTexts(e: Record, key: string, d: string, x: string)
    ensures Join(BlockTexts(e, key, d, x)) ==
      "\n" + CommentLines(e.tags) + RefLine(e, key) + MsgLine("msgid", Escape(d)) + MsgLine("msgstr", x)
  {
    var cs := CommentTexts(e.tags);
    var r := RefText(e, key);
    var mi := MsgText("msgid", Escape(d));
    var ms := MsgText("msgstr", x);
    CommentsJoin(e.tags);
    JoinAppend([""], cs + [r, mi, ms]);
    JoinAppend(cs, [r, mi, ms]);
    assert Join([""]) == "\n" + "" == "\n";
    assert Join([ms]) == MsgLine("msgstr", x) + "" == MsgLine("msgstr", x);
    assert Join([mi, ms]) == MsgLine("msgid", Escape(d)) + MsgLine("msgstr", x);
    assert Join([r, mi, ms]) == RefLine(e, key) + (MsgLine("msgid", Escape(d)) + MsgLine("msgstr", x));
    var cl := CommentLines(e.tags);
    var rl := RefLine(e, key);
    var il := MsgLine("msgid", Escape(d));
    var sl := MsgLine("msgstr", x);
    assert Join(BlockTexts(e, key, d, x)) == "\n" + (cl + (rl + (il + sl)));
    Assoc("\n", cl, rl + (il + sl));
    Assoc("\n" + cl, rl, il + sl);
    Assoc("\n" + cl + rl, il, sl);
  }

  lemma BlockIsJoin(e: Record, key: string, v: string, lang: string)
    requires Block(e, key, v, lang).Success?
    ensures Block(e, key, v, lang).value == Join(BlockTexts(e, key, UnnormalizeSpec(v, {}).value, StrText(e, key, lang)))
  {
    var d := UnnormalizeSpec(v, {}).value;
    var head := "\n" + CommentLines(e.tags) + RefLine(e, key) + MsgLine("msgid", Escape(d));
    JoinTexts(e, key, d, StrText(e, key, lang));
    match Lookup(e.tags, key + ":" + lang)
    case None =>
      assert Block(e, key, v, lang) == Success(head + MsgLine("msgstr", ""));
    case Some(tr) =>
      assert Block(e, key, v, lang) == Success(head + MsgLine("msgstr", Escape(UnnormalizeSpec(tr, {}).value)));
  }

  lemma CommentsOneLine(tags: seq<(string, string)>)
    requires forall i :: 0 <= i < |tags| ==> OneLine(tags[i].0) && OneLine(tags[i].1)
    ensures forall i :: 0 <= i < |CommentTexts(tags)| ==> OneLine(CommentTexts(tags)[i])
  {
    var cs := CommentTexts(tags);
    CommentsJoin(tags);
    forall i | 0 <= i < |cs| ensures OneLine(cs[i]) {
      var (k, v) := tags[i];
      assert CommentTexts(tags)[i] == "#. " + k + "=" + v;
      OneLineConcat("#. ", k);
      OneLineConcat("#. " + k, "=");
      OneLineConcat("#. " + k + "=", v);
    }
  }

  lemma RefOneLine(t: string, id: string, key: string)
    requires OneLine(t) && OneLine(id) && OneLine(key)
    ensures OneLine("#: " + t + ":" + id + ":" + key)
  {
    OneLineConcat("#: ", t);
    OneLineConcat("#: " + t, ":");
    OneLineConcat("#: " + t + ":", id);
    OneLineConcat("#: " + t + ":" + id, ":");
    OneLineConcat("#: " + t + ":" + id + ":", key);
  }

  lemma MsgOneLine(field: string, text: string)
    requires OneLine(field) && OneLine(text)
    ensures OneLine(MsgText(field, text))
  {
    OneLineConcat(field, " \"");
    OneLineConcat(field + " \"", text);
    OneLineConcat(field + " \"" + text, "\"");
  }

  lemma BlockTextsOneLine(e: Record, key: string, d: string, x: string)
    requires forall i :: 0 <= i < |e.tags| ==> OneLine(e.tags[i].0) && OneLine(e.tags[i].1)
    requires OneLine(e.id) && OneLine(key) && OneLine(x)
    ensures var ls := BlockTexts(e, key, d, x);
      forall i :: 0 <= i < |ls| ==> OneLine(ls[i])
  {
    var cs := CommentTexts(e.tags);
    CommentsOneLine(e.tags);
    var t := TypeName(e.kind);
    assert OneLine(t) by { assert t == "node" || t == "way" || t == "relation"; }
    RefOneLine(t, e.id, key);
    EscapeSafe(d);
    MsgOneLine("msgid", Escape(d));
    MsgOneLine("msgstr", x);
    var tail := [RefText(e, key), MsgText("msgid", Escape(d)), MsgText("msgstr", x)];
    var ls := BlockTexts(e, key, d, x);
    assert ls == [""] + (cs + tail);
    forall i | 0 <= i < |ls| ensures OneLine(ls[i]) {
      if i > 0 {
        assert ls[i] == (cs + tail)[i - 1];
        if i <= |cs| {
          assert ls[i] == cs[i - 1];
        } else {
          assert ls[i] == tail[i - 1 - |cs|];
        }
      }
    }
  }

  /** The reference line sets the reference and its three parts. */
  lemma ReferenceLine(t: string, id: string, key: string, st: State)
    requires ':' !in t && ':' !in id
    requires st.entry.Some?
    ensures Step(st, "#: " + t + ":" + id + ":" + key) == Success(State(st.entries, Some(st.entry.value.(
      ref := Some(t + ":" + id + ":" + key), osmtype := Some(t), osmid := Some(id), osmtag := Some(key)))))
  {
    RefShape(t, id, key);
    SplitReference(t, id, key);
  }

  lemma RefShape(t: string, id: string, key: string)
    ensures var l := "#: " + t + ":" + id + ":" + key;
      l != "" && StartsWith(l, "#: ") && l[3..] == t + ":" + id + ":" + key
  {
    var l := "#: " + t + ":" + id + ":" + key;
    assert l[..3] == "#: " && l[3..] == t + ":" + id + ":" + key;
  }

  /** The reference line and the two message lines fill a fresh entry. */
  lemma ParseEntryLines(t: string, id: string, key: string, mi: string, ms: string)
    requires ':' !in t && ':' !in id
    ensures ParseFrom(["#: " + t + ":" + id + ":" + key, MsgText("msgid", mi), MsgText("msgstr", ms)], State([], Some(Fresh)))
      == Success([Entry(Some(t + ":" + id + ":" + key), Some(t), Some(id), Some(key), Some(Unescape(mi)), Some(Unescape(ms)))])
  {
    var refLine := "#: " + t + ":" + id + ":" + key;
    var idLine := MsgText("msgid", mi);
    var strLine := MsgText("msgstr", ms);
    var st1 := State([], Some(Fresh));
    var en1 := Fresh.(ref := Some(t + ":" + id + ":" + key), osmtype := Some(t), osmid := Some(id), osmtag := Some(key));
    var st2 := State([], Some(en1));
    var st3 := State([], Some(en1.(msgid := Some(Unescape(mi)))));
    var st4 := State([], Some(en1.(msgid := Some(Unescape(mi)), msgstr := Some(Unescape(ms)))));
    ReferenceLine(t, id, key, st1);
    MsgIdLine(mi, st2);
    MsgStrLine(ms, st3);
    assert st4.entry.value == Entry(Some(t + ":" + id + ":" + key), Some(t), Some(id), Some(key), Some(Unescape(mi)), Some(Unescape(ms)));
    assert Commit(st4) == [st4.entry.value];
    assert ParseFrom([], st4) == Success(Commit(st4));
    assert [strLine][1..] == [];
    assert ParseFrom([strLine], st3) == ParseFrom([], st4);
    assert [idLine, strLine][1..] == [strLine];
    assert ParseFrom([idLine, strLine], st2) == ParseFrom([strLine], st3);
    assert [refLine, idLine, strLine][1..] == [idLine, strLine];
    assert ParseFrom([refLine, idLine, strLine], st1) == ParseFrom([idLine, strLine], st2);
  }

  lemma CommentsPrefixed(tags: seq<(string, string)>)
    ensures forall i :: 0 <= i < |CommentTexts(tags)| ==>
      |CommentTexts(tags)[i]| >= 2 && CommentTexts(tags)[i][..2] == "#."
  {
    CommentsJoin(tags);
    forall i | 0 <= i < |CommentTexts(tags)|
      ensures |CommentTexts(tags)[i]| >= 2 && CommentTexts(tags)[i][..2] == "#."
    {
      assert CommentTexts(tags)[i] == CommentText(tags[i].0, tags[i].1);
    }
  }

  /** The blank line opens the entry. */
  lemma ParseOpening(rest: seq<string>)
    ensures ParseFrom([""] + rest, Start) == ParseFrom(rest, State([], Some(Fresh)))
  {
    assert Commit(Start) == [];
    assert ([""] + rest)[0] == "" && ([""] + rest)[1..] == rest;
  }

  lemma ParseBlockTexts(e: Record, key: string, d: string, x: string)
    requires ':' !in e.id
    ensures ParseFrom(BlockTexts(e, key, d, x), Start) == Success([Entry(
      Some(TypeName(e.kind) + ":" + e.id + ":" + key), Some(TypeName(e.kind)), Some(e.id), Some(key),
      Some(Unescape(Escape(d))), Some(Unescape(x)))])
  {
    var tail := [RefText(e, key), MsgText("msgid", Escape(d)), MsgText("msgstr", x)];
    var cs := CommentTexts(e.tags);
    CommentsPrefixed(e.tags);
    ParseOpening(cs + tail);
    SkipComments(cs, tail, State([], Some(Fresh)));
    ParseEntryLines(TypeName(e.kind), e.id, key, Escape(d), x);
  }

  /** The block of one key read back: a single entry with the element's type
      and id, the key, and the decoded value as msgid; msgstr is empty for a
      missing translation and the decoded translation otherwise, as long as
      no decoded text holds a backslash. */
  lemma BlockRoundTrip(e: Record, key: string, v: string, lang: string)
    requires Block(e, key, v, lang).Success?
    requires forall i :: 0 <= i < |e.tags| ==> OneLine(e.tags[i].0) && OneLine(e.tags[i].1)
    requires OneLine(e.id) && ':' !in e.id && OneLine(key)
    requires NoBackslash(UnnormalizeSpec(v, {}).value)
    ensures var r := ParseFrom(Lines(Block(e, key, v, lang).value), Start);
      var tr := Lookup(e.tags, key + ":" + lang);
      && r.Success? && |r.value| == 1
      && r.value[0].osmtype == Some(TypeName(e.kind))
      && r.value[0].osmid == Some(e.id)
      && r.value[0].osmtag == Some(key)
      && r.value[0].msgid == Some(UnnormalizeSpec(v, {}).value)
      && (tr.None? ==> r.value[0].msgstr == Some(""))
      && ((tr.Some? && NoBackslash(UnnormalizeSpec(tr.value, {}).value)) ==>
            r.value[0].msgstr == Some(UnnormalizeSpec(tr.value, {}).value))
  {
    var d := UnnormalizeSpec(v, {}).value;
    var tr := Lookup(e.tags, key + ":" + lang);
    var x := StrText(e, key, lang);
    BlockIsJoin(e, key, v, lang);
    if tr.Some? { EscapeSafe(UnnormalizeSpec(tr.value, {}).value); }
    BlockTextsOneLine(e, key, d, x);
    LinesJoin(BlockTexts(e, key, d, x));
    ParseBlockTexts(e, key, d, x);
    UnescapeEscape(d);
    if tr.Some? && NoBackslash(UnnormalizeSpec(tr.value, {}).value) {
      UnescapeEscape(UnnormalizeSpec(tr.value, {}).value);
    }
    assert Unescape("") == "";
  }

  /** `parse(xgettext(e))`: one entry for the last matched key with a value,
      and no entry at all when no matched key has one. */
  lemma XgettextRoundTrip(t: Translator, e: Record)
    requires ExportFrom(Matched(t.rules, e), e, t.lang, "").Success?
    requires forall i :: 0 <= i < |e.tags| ==> OneLine(e.tags[i].0) && OneLine(e.tags[i].1)
    requires OneLine(e.id) && ':' !in e.id
    requires LastValued(Matched(t.rules, e), e).Some? ==>
      var v := Lookup(e.tags, LastValued(Matched(t.rules, e), e).value).value;
      UnnormalizeSpec(v, {}).Success? ==> NoBackslash(UnnormalizeSpec(v, {}).value)
    ensures var out := ExportFrom(Matched(t.rules, e), e, t.lang, "").value;
      var r := ParseFrom(Lines(out), Start);
      match LastValued(Matched(t.rules, e), e)
      case None => r == Success([])
      case Some(k) =>
        && r.Success? && |r.value| == 1
        && r.value[0].osmtype == Some(TypeName(e.kind))
        && r.value[0].osmid == Some(e.id)
        && r.value[0].osmtag == Some(k)
        && r.value[0].msgid.Some?
        && UnnormalizeSpec(Lookup(e.tags, k).value, {}) == Success(r.value[0].msgid.value)
  {
    var keys := Matched(t.rules, e);
    ExportKeepsLast(keys, e, t.lang, "");
    match LastValued(keys, e)
    case None =>
      assert ExportFrom(keys, e, t.lang, "").value == "";
      assert Lines("") == [];
      assert Commit(Start) == [];
    case Some(k) =>
      // the key is a tag key, so it is one line like every tag key
      var i :| 0 <= i < |e.tags| && e.tags[i].0 == k;
      assert OneLine(e.tags[i].0);
      BlockRoundTrip(e, k, Lookup(e.tags, k).value, t.lang);
  }
}
