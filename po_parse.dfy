/** The line-oriented catalog scraper `POParser#parse` (po2osm.rb:25-55). */
module PoParse {
  import opened Wrappers
  import opened Text
  import opened PoEscape

  /** The hash `parse` fills for one catalog entry; a key never assigned
      reads as nil. */
  datatype Entry = Entry(
    ref: Option<string>,
    osmtype: Option<string>,
    osmid: Option<string>,
    osmtag: Option<string>,
    msgid: Option<string>,
    msgstr: Option<string>)

  /** `Hash.new`. */
  const Fresh := Entry(None, None, None, None, None, None)

  /** The two ways `parse` raises: assigning into `entry` while it is still
      nil, and `unescape(nil)` when a message line has nothing after its
      keyword (`""[1..-2]` is nil). */
  datatype ParseError = NoEntry | NoQuotedText

  /** The position of the first `c` in `s`, or `|s|`. */
  function IndexOf(s: string, c: char): (i: nat)
    ensures i <= |s|
    ensures forall j :: 0 <= j < i ==> s[j] != c
    ensures i < |s| ==> s[i] == c
  {
    if s == [] then 0
    else if s[0] == c then 0
    else 1 + IndexOf(s[1..], c)
  }

  lemma IndexOfAt(s: string, c: char, i: nat)
    requires i < |s| && s[i] == c && forall j :: 0 <= j < i ==> s[j] != c
    ensures IndexOf(s, c) == i
  {
  }

  /** `chomp!`: one trailing CRLF, LF or CR removed. */
  function Chomp(l: string): (r: string)
    ensures |r| <= |l| && r == l[..|r|]
    ensures var cut := l[|r|..]; cut == "" || cut == "\n" || cut == "\r" || cut == "\r\n"
    ensures |r| == |l| <==> |l| == 0 || (l[|l| - 1] != '\n' && l[|l| - 1] != '\r')
    ensures |l| >= 2 && l[|l| - 2..] == "\r\n" ==> r == l[..|l| - 2]
  {
    if |l| >= 2 && l[|l| - 2..] == "\r\n" then l[..|l| - 2]
    else if |l| >= 1 && (l[|l| - 1] == '\n' || l[|l| - 1] == '\r') then
      assert l[|l| - 1..] == [l[|l| - 1]];
      l[..|l| - 1]
    else l
  }

  predicate NoLF(l: string) {
    forall j :: 0 <= j < |l| ==> l[j] != '\n'
  }

  /** A line whose only possible LF is its last character, chomped, holds
      no LF. */
  lemma ChompLine(x: string)
    requires |x| > 0 && forall j :: 0 <= j < |x| - 1 ==> x[j] != '\n'
    ensures NoLF(Chomp(x))
  {
    var r := Chomp(x);
    assert x[|x| - 1] == '\n' ==> |r| < |x|;
    forall j | 0 <= j < |r| ensures r[j] != '\n' {
      assert r[j] == x[j];
    }
  }

  /** `io.each_line` followed by `chomp!`: lines end at LF; a final line
      without LF counts too. */
  function Lines(text: string): (r: seq<string>)
    ensures forall k :: 0 <= k < |r| ==> NoLF(r[k])
    ensures text == [] <==> r == []
    decreases |text|
  {
    if text == [] then []
    else
      var i := IndexOf(text, '\n');
      if i == |text| then
        ChompLine(text);
        [Chomp(text)]
      else
        var line := text[..i + 1];
        var rest := Lines(text[i + 1..]);
        ChompLine(line);
        assert forall k :: 0 < k < |[Chomp(line)] + rest| ==> ([Chomp(line)] + rest)[k] == rest[k - 1];
        [Chomp(line)] + rest
  }

  /** A line ended by LF is one chomped line, and the lines after it follow. */
  lemma LinesLine(l: string, rest: string)
    requires NoLF(l)
    ensures Lines(l + "\n" + rest) == [Chomp(l + "\n")] + Lines(rest)
  {
    var text := l + "\n" + rest;
    assert forall j :: 0 <= j < |l| ==> text[j] == l[j];
    IndexOfAt(text, '\n', |l|);
    assert text[..|l| + 1] == l + "\n";
    assert text[|l| + 1..] == rest;
  }

  /** A last line without LF is still a line. */
  lemma LinesLast(l: string)
    requires NoLF(l) && l != []
    ensures Lines(l) == [Chomp(l)]
  {
  }

  /** A CRLF line end is removed whole. */
  lemma LinesCRLF(l: string, rest: string)
    requires NoLF(l)
    ensures Lines(l + "\r\n" + rest) == [l] + Lines(rest)
  {
    var w := l + "\r";
    NoLFCR(l);
    LinesLine(w, rest);
    CRLFSplit(l, rest);
    ChompCRLF(l);
  }

  lemma CRLFSplit(l: string, rest: string)
    ensures l + "\r\n" + rest == (l + "\r") + "\n" + rest
  {
  }

  lemma NoLFCR(l: string)
    requires NoLF(l)
    ensures NoLF(l + "\r")
  {
    var w := l + "\r";
    assert forall j :: 0 <= j < |l| ==> w[j] == l[j];
  }

  lemma ChompCRLF(l: string)
    ensures Chomp(l + "\r" + "\n") == l
  {
    var x := l + "\r" + "\n";
    assert x[|x| - 2..] == "\r\n" && x[..|x| - 2] == l;
  }

  /** `s.split(':', 3)`: at most three parts, so the third keeps any further
      colons; an empty string has no parts. */
  function SplitColon3(s: string): seq<string> {
    if s == [] then []
    else
      var i := IndexOf(s, ':');
      if i == |s| then [s]
      else
        var rest := s[i + 1..];
        var j := IndexOf(rest, ':');
        if j == |rest| then [s[..i], rest] else [s[..i], rest[..j], rest[j + 1..]]
  }

  /** The `k`-th target of a multiple assignment from an array. */
  function Part(parts: seq<string>, k: nat): Option<string> {
    if k < |parts| then Some(parts[k]) else None
  }

  /** `p[1..-2]`: the first and last characters dropped; nil for `""`. */
  function Unquote(p: string): Option<string> {
    if |p| == 0 then None
    else if |p| == 1 then Some("")
    else Some(p[1..|p| - 1])
  }

  predicate Recognized(line: string) {
    StartsWith(line, "#: ") || StartsWith(line, "msgid ") || StartsWith(line, "msgstr ")
  }

  /** The loop state: the committed entries and the entry in progress (nil
      until the first blank line). */
  datatype State = State(entries: seq<Entry>, entry: Option<Entry>)

  function Commit(st: State): seq<Entry> {
    st.entries + (if st.entry.Some? then [st.entry.value] else [])
  }

  /** One pass of the `each_line` block on a chomped line. */
  function Step(st: State, line: string): Result<State, ParseError> {
    if line == "" then Success(State(Commit(st), Some(Fresh)))
    else if StartsWith(line, "#: ") then
      if st.entry.None? then Failure(NoEntry)
      else
        var ref := line[3..];
        var parts := SplitColon3(ref);
        Success(State(st.entries, Some(st.entry.value.(
          ref := Some(ref), osmtype := Part(parts, 0), osmid := Part(parts, 1), osmtag := Part(parts, 2)))))
    else if StartsWith(line, "msgid ") then
      match Unquote(line[6..])
      case None => Failure(NoQuotedText)
      case Some(q) =>
        if st.entry.None? then Failure(NoEntry)
        else Success(State(st.entries, Some(st.entry.value.(msgid := Some(Unescape(q))))))
    else if StartsWith(line, "msgstr ") then
      match Unquote(line[7..])
      case None => Failure(NoQuotedText)
      case Some(q) =>
        if st.entry.None? then Failure(NoEntry)
        else Success(State(st.entries, Some(st.entry.value.(msgstr := Some(Unescape(q))))))
    else Success(st)
  }

  /** The rest of the loop from state `st`, then the final commit. */
  function ParseFrom(lines: seq<string>, st: State): Result<seq<Entry>, ParseError>
    decreases |lines|
  {
    if lines == [] then Success(Commit(st))
    else
      var next :- Step(st, lines[0]);
      ParseFrom(lines[1..], next)
  }

  const Start := State([], None)

  /** `POParser#parse`. */
  method Parse(text: string) returns (r: Result<seq<Entry>, ParseError>)
    ensures r == ParseFrom(Lines(text), Start)
  {
    var lines := Lines(text);
    var entries: seq<Entry> := [];
    var entry: Option<Entry> := None;
    var i := 0;
    while i < |lines|
      invariant 0 <= i <= |lines|
      invariant ParseFrom(lines[i..], State(entries, entry)) == ParseFrom(lines, Start)
    {
      assert lines[i..][1..] == lines[i + 1..];
      var line := lines[i];
      ghost var next := Step(State(entries, entry), line);
      assert ParseFrom(lines[i..], State(entries, entry)) ==
        if next.Failure? then Failure(next.error) else ParseFrom(lines[i + 1..], next.value);
      if line == "" {
        assert Commit(State(entries, entry)) == if entry.Some? then entries + [entry.value] else entries;
        if entry.Some? {
          entries := entries + [entry.value];
        }
        entry := Some(Fresh);
      } else if StartsWith(line, "#: ") {
        if entry.None? {
          return Failure(NoEntry);
        }
        var ref := line[3..];
        var parts := SplitColon3(ref);
        entry := Some(entry.value.(ref := Some(ref), osmtype := Part(parts, 0), osmid := Part(parts, 1), osmtag := Part(parts, 2)));
      } else if StartsWith(line, "msgid ") {
        var q := Unquote(line[6..]);
        if q.None? {
          return Failure(NoQuotedText);
        }
        if entry.None? {
          return Failure(NoEntry);
        }
        entry := Some(entry.value.(msgid := Some(Unescape(q.value))));
      } else if StartsWith(line, "msgstr ") {
        var q := Unquote(line[7..]);
        if q.None? {
          return Failure(NoQuotedText);
        }
        if entry.None? {
          return Failure(NoEntry);
        }
        entry := Some(entry.value.(msgstr := Some(Unescape(q.value))));
      }
      assert next == Success(State(entries, entry));
      i := i + 1;
    }
    assert lines[i..] == [];
    assert Commit(State(entries, entry)) == if entry.Some? then entries + [entry.value] else entries;
    if entry.Some? {
      entries := entries + [entry.value];
    }
    r := Success(entries);
  }

  // ----- properties -----

  function BlankCount(lines: seq<string>): nat {
    if lines == [] then 0 else (if lines[0] == "" then 1 else 0) + BlankCount(lines[1..])
  }

  /** Commit rule: each blank line commits the entry in progress, if there
      is one, and the last one is committed at the end. */
  lemma {:induction false} ParseCountFrom(lines: seq<string>, st: State)
    requires ParseFrom(lines, st).Success?
    ensures |ParseFrom(lines, st).value| == |st.entries| + BlankCount(lines) + (if st.entry.Some? then 1 else 0)
    decreases |lines|
  {
    if lines != [] {
      var next := Step(st, lines[0]).value;
      ParseCountFrom(lines[1..], next);
    }
  }

  /** A successful parse yields one entry per blank line: none without a
      blank line, and an empty entry for a blank line at the very end. */
  lemma ParseCount(lines: seq<string>)
    requires ParseFrom(lines, Start).Success?
    ensures |ParseFrom(lines, Start).value| == BlankCount(lines)
  {
    ParseCountFrom(lines, Start);
  }

  predicate NoBlank(ls: seq<string>) {
    forall i :: 0 <= i < |ls| ==> ls[i] != ""
  }

  /** The entry that a run of non-blank lines builds from `en`, one `Step` at
      a time. */
  function Build(ls: seq<string>, en: Entry): Result<Entry, ParseError>
    requires NoBlank(ls)
    decreases |ls|
  {
    if ls == [] then Success(en)
    else
      var st :- Step(State([], Some(en)), ls[0]);
      Build(ls[1..], st.entry.value)
  }

  /** A non-blank line changes the entry in progress and nothing else. */
  lemma StepKeepsEntries(es: seq<Entry>, en: Entry, line: string)
    requires line != ""
    ensures Step(State(es, Some(en)), line) ==
      match Step(State([], Some(en)), line)
      case Failure(err) => Failure(err)
      case Success(st) => Success(State(es, st.entry))
  {
  }

  /** A run of non-blank lines works on the entry in progress only. */
  lemma {:induction false} RunBuilds(ls: seq<string>, es: seq<Entry>, en: Entry, rest: seq<string>)
    requires NoBlank(ls)
    ensures ParseFrom(ls + rest, State(es, Some(en))) ==
      match Build(ls, en)
      case Failure(err) => Failure(err)
      case Success(b) => ParseFrom(rest, State(es, Some(b)))
    decreases |ls|
  {
    if ls == [] {
      assert ls + rest == rest;
    } else {
      assert (ls + rest)[0] == ls[0] && (ls + rest)[1..] == ls[1..] + rest;
      StepKeepsEntries(es, en, ls[0]);
      match Step(State([], Some(en)), ls[0])
      case Failure(_) =>
      case Success(st) =>
        assert NoBlank(ls[1..]) by {
          forall i | 0 <= i < |ls[1..]| ensures ls[1..][i] != "" {
            assert ls[1..][i] == ls[i + 1];
          }
        }
        RunBuilds(ls[1..], es, st.entry.value, rest);
    }
  }

  /** Commit rule, one entry at a time: a blank line opens a fresh entry,
      the non-blank lines up to the next blank line (or the end) fill it, and
      it is committed after the entries before it. */
  lemma EntryRun(ls: seq<string>, rest: seq<string>, st: State)
    requires NoBlank(ls) && (rest == [] || rest[0] == "")
    ensures ParseFrom([""] + ls + rest, st) ==
      match Build(ls, Fresh)
      case Failure(err) => Failure(err)
      case Success(en) =>
        if rest == [] then Success(Commit(st) + [en])
        else ParseFrom(rest[1..], State(Commit(st) + [en], Some(Fresh)))
  {
    var all := [""] + ls + rest;
    assert all[0] == "" && all[1..] == ls + rest;
    RunBuilds(ls, Commit(st), Fresh, rest);
  }

  /** A blank last line commits an entry of its own, with no field set. */
  lemma {:induction false} TrailingBlank(ls: seq<string>, st: State)
    requires ParseFrom(ls + [""], st).Success?
    ensures var es := ParseFrom(ls + [""], st).value; |es| > 0 && es[|es| - 1] == Fresh
    decreases |ls|
  {
    if ls == [] {
      assert ls + [""] == [""];
    } else {
      assert (ls + [""])[0] == ls[0] && (ls + [""])[1..] == ls[1..] + [""];
      TrailingBlank(ls[1..], Step(st, ls[0]).value);
    }
  }

  /** The lines the scraper looks at: blank ones and the three kinds it
      recognises. */
  function Relevant(lines: seq<string>): seq<string> {
    if lines == [] then []
    else (if lines[0] == "" || Recognized(lines[0]) then [lines[0]] else []) + Relevant(lines[1..])
  }

  /** Every other line (context comments, `msgctxt`, stray text) is ignored. */
  lemma {:induction false} ParseIgnoresOthers(lines: seq<string>, st: State)
    ensures ParseFrom(lines, st) == ParseFrom(Relevant(lines), st)
    decreases |lines|
  {
    if lines != [] {
      var rest := Relevant(lines[1..]);
      if lines[0] == "" || Recognized(lines[0]) {
        assert Relevant(lines) == [lines[0]] + rest;
        assert ([lines[0]] + rest)[1..] == rest;
        match Step(st, lines[0])
        case Success(next) =>
          ParseIgnoresOthers(lines[1..], next);
        case Failure(_) =>
      } else {
        assert Relevant(lines) == rest;
        ParseIgnoresOthers(lines[1..], st);
      }
    }
  }

  /** `entry` starts as nil: a reference or message line before the first
      blank line makes `parse` fail. */
  lemma {:induction false} EarlyFieldFails(lines: seq<string>, st: State, k: nat)
    requires st.entry.None? && k < |lines| && Recognized(lines[k])
    requires forall j :: 0 <= j < k ==> lines[j] != ""
    ensures ParseFrom(lines, st).Failure?
    decreases k
  {
    if k > 0 && !Recognized(lines[0]) {
      assert lines[1..][k - 1] == lines[k];
      EarlyFieldFails(lines[1..], st, k - 1);
    }
  }

  /** The reference `type:id:tag` splits at its first two colons only, so the
      tag keeps any colon of its own. */
  lemma SplitReference(t: string, id: string, tag: string)
    requires ':' !in t && ':' !in id
    ensures SplitColon3(t + ":" + id + ":" + tag) == [t, id, tag]
  {
    var s := t + ":" + id + ":" + tag;
    assert s[|t|] == ':' && forall j :: 0 <= j < |t| ==> s[j] == t[j];
    IndexOfAt(s, ':', |t|);
    var rest := s[|t| + 1..];
    assert rest == id + ":" + tag;
    assert rest[|id|] == ':' && forall j :: 0 <= j < |id| ==> rest[j] == id[j];
    IndexOfAt(rest, ':', |id|);
    assert s[..|t|] == t && rest[..|id|] == id && rest[|id| + 1..] == tag;
  }
}
