/** `PO2OSM#merge` (po2osm.rb:78-125): the catalog is parsed, its translated
    entries are grouped by element type and id, and each `node`, `way` and
    `relation` under `osm` receives a `<key>:<lang>` tag per entry. */
module Merge {
  import opened Wrappers
  import opened Text
  import opened PoParse

  /** A child element: its name and attributes (text content is not part
      of this model). */
  datatype Child = Child(name: string, attrs: map<string, string>)

  /** A snapshot of a top-level element. */
  datatype Element = Element(name: string, attrs: map<string, string>, children: seq<Child>)

  /** A top-level element of the document, updated in place. */
  class OsmElement {
    const name: string
    var attrs: map<string, string>
    var children: seq<Child>

    constructor(name: string, attrs: map<string, string>, children: seq<Child>)
      ensures Value() == Element(name, attrs, children)
    {
      this.name := name;
      this.attrs := attrs;
      this.children := children;
    }

    function Value(): Element
      reads this
    {
      Element(name, attrs, children)
    }
  }

  /** The ways `merge` raises (NoMethodError on nil, mostly). */
  datatype MergeError =
    | ParseFailed(cause: ParseError)   // from `POParser#parse`
    | NoMsgstr                         // `nil.empty?`
    | UnknownType(osmtype: Option<string>)  // `id_hash[type]` is nil
    | UnknownElement(name: string)     // `id_hash[element.name]` is nil

  /** `attributes[k]`: nil when absent. */
  function Get(m: map<string, string>, k: string): Option<string> {
    if k in m then Some(m[k]) else None
  }

  // ----- the index -----

  /** `id_hash`: per element type, per id (nil included), the entries. */
  type Index = map<string, map<Option<string>, seq<Entry>>>

  const Kinds: set<string> := {"way", "node", "relation"}
  const EmptyIndex: Index := map["way" := map[], "node" := map[], "relation" := map[]]

  /** The entries stored under `t` and `id` (none when absent). */
  function Bucket(idx: Index, t: string, id: Option<string>): seq<Entry> {
    if t in idx && id in idx[t] then idx[t][id] else []
  }

  /** One pass of the `entries.each` block. */
  function AddEntry(idx: Index, e: Entry): Result<Index, MergeError> {
    if e.msgstr.None? then Failure(NoMsgstr)
    else if e.msgstr.value == "" then Success(idx)
    else if e.osmtype.None? || e.osmtype.value !in idx then Failure(UnknownType(e.osmtype))
    else
      var t := e.osmtype.value;
      Success(idx[t := idx[t][e.osmid := Bucket(idx, t, e.osmid) + [e]]])
  }

  function IndexFrom(entries: seq<Entry>, idx: Index): Result<Index, MergeError>
    decreases |entries|
  {
    if entries == [] then Success(idx)
    else
      var next :- AddEntry(idx, entries[0]);
      IndexFrom(entries[1..], next)
  }

  /** The index build of `merge`. */
  method BuildIndex(entries: seq<Entry>) returns (r: Result<Index, MergeError>)
    ensures r == IndexFrom(entries, EmptyIndex)
  {
    var idx := EmptyIndex;
    var i := 0;
    while i < |entries|
      invariant 0 <= i <= |entries|
      invariant IndexFrom(entries[i..], idx) == IndexFrom(entries, EmptyIndex)
    {
      assert entries[i..][1..] == entries[i + 1..];
      var e := entries[i];
      ghost var next := AddEntry(idx, e);
      assert IndexFrom(entries[i..], idx) ==
        if next.Failure? then Failure(next.error) else IndexFrom(entries[i + 1..], next.value);
      if e.msgstr.None? {
        return Failure(NoMsgstr);
      }
      if e.msgstr.value != "" {
        if e.osmtype.None? || e.osmtype.value !in idx {
          return Failure(UnknownType(e.osmtype));
        }
        var t := e.osmtype.value;
        var bucket := if e.osmid in idx[t] then idx[t][e.osmid] else [];
        idx := idx[t := idx[t][e.osmid := bucket + [e]]];
      }
      assert next == Success(idx);
      i := i + 1;
    }
    return Success(idx);
  }

  /** `e` when the index files it under `t` and `id`, else nothing. */
  function Picked(e: Entry, t: string, id: Option<string>): seq<Entry> {
    if e.msgstr.Some? && e.msgstr.value != "" && e.osmtype == Some(t) && e.osmid == id then [e] else []
  }

  /** The entries the index keeps for `t` and `id`, in catalog order. */
  function Selected(entries: seq<Entry>, t: string, id: Option<string>): seq<Entry> {
    if entries == [] then []
    else Picked(entries[0], t, id) + Selected(entries[1..], t, id)
  }

  /** A successful build has added its first entry successfully. */
  lemma IndexStep(entries: seq<Entry>, idx: Index)
    requires entries != [] && IndexFrom(entries, idx).Success?
    ensures AddEntry(idx, entries[0]).Success?
    ensures IndexFrom(entries[1..], AddEntry(idx, entries[0]).value) == IndexFrom(entries, idx)
  {
  }

  lemma EntriesAssoc(a: seq<Entry>, b: seq<Entry>, c: seq<Entry>)
    ensures a + b + c == a + (b + c)
  {
  }

  /** One entry keeps the types and adds itself to its own bucket only. */
  lemma AddEntryBucket(idx: Index, e: Entry, t: string, id: Option<string>)
    requires AddEntry(idx, e).Success?
    ensures AddEntry(idx, e).value.Keys == idx.Keys
    ensures Bucket(AddEntry(idx, e).value, t, id) == Bucket(idx, t, id) + Picked(e, t, id)
  {
    if Picked(e, t, id) == [] {
      assert Bucket(idx, t, id) + [] == Bucket(idx, t, id);
    }
  }

  /** A successful build keeps the three types and files each translated
      entry under its own type and id, in catalog order. */
  lemma {:induction false} IndexGroups(entries: seq<Entry>, idx: Index, t: string, id: Option<string>)
    requires IndexFrom(entries, idx).Success?
    requires t in idx
    ensures IndexFrom(entries, idx).value.Keys == idx.Keys
    ensures Bucket(IndexFrom(entries, idx).value, t, id) == Bucket(idx, t, id) + Selected(entries, t, id)
    decreases |entries|
  {
    if entries == [] {
      assert Bucket(idx, t, id) + [] == Bucket(idx, t, id);
    } else {
      var e := entries[0];
      IndexStep(entries, idx);
      var next := AddEntry(idx, e).value;
      AddEntryBucket(idx, e, t, id);
      IndexGroups(entries[1..], next, t, id);
      EntriesAssoc(Bucket(idx, t, id), Picked(e, t, id), Selected(entries[1..], t, id));
    }
  }

  /** Building fails exactly when some entry has no msgstr line, or has a
      translation and a type other than the three. */
  lemma {:induction false} IndexFails(entries: seq<Entry>, idx: Index)
    requires idx.Keys == Kinds
    ensures IndexFrom(entries, idx).Failure? <==>
      exists i :: 0 <= i < |entries| && (entries[i].msgstr.None? ||
        (entries[i].msgstr.value != "" && (entries[i].osmtype.None? || entries[i].osmtype.value !in Kinds)))
    decreases |entries|
  {
    if entries != [] {
      var e := entries[0];
      assert forall i :: 0 < i < |entries| ==> entries[i] == entries[1..][i - 1];
      match AddEntry(idx, e)
      case Failure(_) =>
      case Success(next) =>
        IndexFails(entries[1..], next);
        if exists i :: 0 <= i < |entries| && (entries[i].msgstr.None? ||
             (entries[i].msgstr.value != "" && (entries[i].osmtype.None? || entries[i].osmtype.value !in Kinds))) {
          var i :| 0 <= i < |entries| && (entries[i].msgstr.None? ||
             (entries[i].msgstr.value != "" && (entries[i].osmtype.None? || entries[i].osmtype.value !in Kinds)));
          assert i > 0 && entries[1..][i - 1] == entries[i];
        }
    }
  }

  // ----- one element -----

  /** A `tag` child whose `k` is `key`. */
  predicate IsTagFor(c: Child, key: string) {
    c.name == "tag" && Get(c.attrs, "k") == Some(key)
  }

  /** The position of the first tag child for `key`, or `|children|`. */
  function FindTag(children: seq<Child>, key: string): (i: nat)
    ensures i <= |children|
    ensures forall j :: 0 <= j < i ==> !IsTagFor(children[j], key)
    ensures i < |children| ==> IsTagFor(children[i], key)
  {
    if children == [] then 0
    else if IsTagFor(children[0], key) then 0
    else 1 + FindTag(children[1..], key)
  }

  /** `"#{entry[:osmtag]}:#{@lang}"`; nil interpolates as the empty string. */
  function TagKey(entry: Entry, lang: string): string {
    entry.osmtag.GetOr("") + ":" + lang
  }

  /** The child created for a key the element lacks: note that it carries
      `v`, while existing tags are compared and updated through `value`. */
  function NewTag(key: string, value: string): Child {
    Child("tag", map["k" := key, "v" := value])
  }

  /** The effect of one entry on the children, and whether it sets
      `modified`. */
  function MergeTag(children: seq<Child>, key: string, value: string): (seq<Child>, bool) {
    var i := FindTag(children, key);
    if i == |children| then (children + [NewTag(key, value)], true)
    else if Get(children[i].attrs, "value") != Some(value) then
      (children[i := children[i].(attrs := children[i].attrs["value" := value])], true)
    else (children, false)
  }

  /** The inner `element.elements.each` search and the update after it. */
  method MergeEntry(el: OsmElement, key: string, value: string) returns (changed: bool)
    modifies el
    ensures (el.children, changed) == MergeTag(old(el.children), key, value)
    ensures el.attrs == old(el.attrs)
  {
    var found := false;
    changed := false;
    var i := 0;
    while i < |el.children|
      invariant 0 <= i <= |el.children|
      invariant el.children == old(el.children) && el.attrs == old(el.attrs)
      invariant forall j :: 0 <= j < i ==> !IsTagFor(el.children[j], key)
    {
      var c := el.children[i];
      if c.name == "tag" && Get(c.attrs, "k") == Some(key) {
        if Get(c.attrs, "value") != Some(value) {
          el.children := el.children[i := c.(attrs := c.attrs["value" := value])];
          changed := true;
        }
        found := true;
        break;
      }
      i := i + 1;
    }
    if !found {
      el.children := el.children + [NewTag(key, value)];
      changed := true;
    }
  }

  /** The `po_entries.each` loop from `el`, with `modified` the flag so far:
      `action=modify` is set after every entry once the flag is up. */
  function MergeEntries(el: Element, entries: seq<Entry>, lang: string, modified: bool): Element
    decreases |entries|
  {
    if entries == [] then el
    else
      var (cs, changed) := MergeTag(el.children, TagKey(entries[0], lang), entries[0].msgstr.GetOr(""));
      var m := modified || changed;
      var attrs := if m then el.attrs["action" := "modify"] else el.attrs;
      MergeEntries(Element(el.name, attrs, cs), entries[1..], lang, m)
  }

  /** The body of `merge` for one element with entries. */
  method MergeElement(el: OsmElement, entries: seq<Entry>, lang: string)
    modifies el
    ensures el.Value() == MergeEntries(old(el.Value()), entries, lang, false)
  {
    var modified := false;
    var i := 0;
    while i < |entries|
      invariant 0 <= i <= |entries|
      invariant MergeEntries(el.Value(), entries[i..], lang, modified) == MergeEntries(old(el.Value()), entries, lang, false)
    {
      assert entries[i..][1..] == entries[i + 1..];
      var entry := entries[i];
      var changed := MergeEntry(el, TagKey(entry, lang), entry.msgstr.GetOr(""));
      modified := modified || changed;
      if modified {
        el.attrs := el.attrs["action" := "modify"];
      }
      i := i + 1;
    }
  }

  // ----- the document -----

  predicate Contains(s: string, w: string) {
    exists i :: 0 <= i <= |s| && StartsWith(s[i..], w)
  }

  /** `element.name =~ /node|way|relation/`: unanchored, so any name
      containing one of the words passes. */
  predicate Mentions(name: string) {
    Contains(name, "node") || Contains(name, "way") || Contains(name, "relation")
  }

  /** The three element names pass, and so does any name that merely holds
      one of the words; `bounds` and `tag` do not. */
  lemma MentionsUnanchored(name: string)
    ensures Mentions("node") && Mentions("way") && Mentions("relation")
    ensures Mentions("waypoint") && Mentions(name + "node")
    ensures !Mentions("bounds") && !Mentions("tag")
  {
    assert StartsWith("node"[0..], "node") && StartsWith("way"[0..], "way");
    assert StartsWith("relation"[0..], "relation") && StartsWith("waypoint"[0..], "way");
    assert StartsWith((name + "node")[|name|..], "node");
    Absent("bounds", "node");
    Absent("bounds", "way");
    Absent("bounds", "relation");
    Absent("tag", "node");
    Absent("tag", "way");
    Absent("tag", "relation");
  }

  /** `w` does not occur where its first two characters never occur together. */
  lemma Absent(s: string, w: string)
    requires |w| >= 2
    requires forall i :: 0 <= i < |s| - 1 ==> s[i] != w[0] || s[i + 1] != w[1]
    ensures !Contains(s, w)
  {
    forall i | 0 <= i <= |s| ensures !StartsWith(s[i..], w) {
      if i + 1 < |s| && |w| <= |s[i..]| {
        assert s[i..][..|w|][0] == s[i] && s[i..][..|w|][1] == s[i + 1];
      }
    }
  }

  /** One pass of the loop over the children of the `osm` root. */
  function WalkElement(idx: Index, el: Element, lang: string): Result<Element, MergeError> {
    if !Mentions(el.name) then Success(el)
    else if el.name !in idx then Failure(UnknownElement(el.name))
    else
      var id := Get(el.attrs, "id");
      if id !in idx[el.name] then Success(el)
      else Success(MergeEntries(el, idx[el.name][id], lang, false))
  }

  /** The walk over the remaining elements, `done` holding those already
      visited. */
  function WalkFrom(idx: Index, els: seq<Element>, lang: string, done: seq<Element>): Result<seq<Element>, MergeError>
    decreases |els|
  {
    if els == [] then Success(done)
    else
      var el :- WalkElement(idx, els[0], lang);
      WalkFrom(idx, els[1..], lang, done + [el])
  }

  /** `merge` on the catalog text `po` and a document whose root element is
      `root` with top-level elements `els`: the elements afterwards. */
  function MergeSpec(po: string, root: string, els: seq<Element>, lang: string): Result<seq<Element>, MergeError> {
    match ParseFrom(Lines(po), Start)
    case Failure(err) => Failure(ParseFailed(err))
    case Success(entries) =>
      var idx :- IndexFrom(entries, EmptyIndex);
      if root != "osm" then Success(els) else WalkFrom(idx, els, lang, [])
  }

  function Snapshot(doc: seq<OsmElement>): seq<Element>
    reads set x | x in doc
  {
    if doc == [] then [] else [doc[0].Value()] + Snapshot(doc[1..])
  }

  lemma {:induction false} SnapshotIndex(doc: seq<OsmElement>)
    ensures |Snapshot(doc)| == |doc|
    ensures forall i :: 0 <= i < |doc| ==> Snapshot(doc)[i] == doc[i].Value()
  {
    if doc != [] {
      SnapshotIndex(doc[1..]);
      assert forall i :: 0 < i < |doc| ==> doc[i] == doc[1..][i - 1];
    }
  }

  /** Distinct objects, as the elements of a tree are. */
  predicate Distinct(doc: seq<OsmElement>) {
    forall i, j :: 0 <= i < j < |doc| ==> doc[i] != doc[j]
  }

  /** The walk from element `i` is one element step followed by the walk
      from `i + 1`. */
  lemma WalkStep(idx: Index, els: seq<Element>, i: nat, lang: string, done: seq<Element>)
    requires i < |els|
    ensures var step := WalkElement(idx, els[i], lang);
      WalkFrom(idx, els[i..], lang, done) ==
        if step.Failure? then Failure(step.error) else WalkFrom(idx, els[i + 1..], lang, done + [step.value])
  {
    assert els[i..][0] == els[i] && els[i..][1..] == els[i + 1..];
  }

  /** One pass of the walk, on one element. */
  method VisitElement(idx: Index, el: OsmElement, lang: string) returns (r: Result<Element, MergeError>)
    modifies el
    ensures r == WalkElement(idx, old(el.Value()), lang)
    ensures r.Success? ==> el.Value() == r.value
  {
    var name := el.name;
    if Mentions(name) {
      if name !in idx {
        return Failure(UnknownElement(name));
      }
      var id := Get(el.attrs, "id");
      if id in idx[name] {
        MergeElement(el, idx[name][id], lang);
      }
    }
    return Success(el.Value());
  }

  /** The walk over the top-level elements. */
  method Walk(idx: Index, doc: seq<OsmElement>, lang: string) returns (r: Result<seq<Element>, MergeError>)
    requires Distinct(doc)
    modifies set x | x in doc
    ensures r == WalkFrom(idx, old(Snapshot(doc)), lang, [])
    ensures r.Success? ==> r.value == Snapshot(doc)
  {
    ghost var olds := Snapshot(doc);
    ghost var target := WalkFrom(idx, olds, lang, []);
    SnapshotIndex(doc);
    var done: seq<Element> := [];
    var i := 0;
    while i < |doc|
      invariant 0 <= i <= |doc| && |done| == i
      invariant WalkFrom(idx, olds[i..], lang, done) == target
      invariant forall j :: 0 <= j < |doc| ==> doc[j].Value() == if j < i then done[j] else olds[j]
    {
      ghost var step := WalkElement(idx, olds[i], lang);
      WalkStep(idx, olds, i, lang, done);
      assert step.Success? ==> WalkFrom(idx, olds[i + 1..], lang, done + [step.value]) == target;
      var el := doc[i];
      assert forall j :: 0 <= j < |doc| && j != i ==> doc[j] != el;
      var v := VisitElement(idx, el, lang);
      assert v == step;
      if v.Failure? {
        return Failure(v.error);
      }
      done := done + [v.value];
      i := i + 1;
    }
    SnapshotIndex(doc);
    assert olds[i..] == [];
    return Success(done);
  }

  /** `PO2OSM#merge`: the elements are updated in place and their final
      state returned (standing in for `doc.to_s`). */
  method MergeDocument(po: string, root: string, doc: seq<OsmElement>, lang: string) returns (r: Result<seq<Element>, MergeError>)
    requires Distinct(doc)
    modifies set x | x in doc
    ensures r == MergeSpec(po, root, old(Snapshot(doc)), lang)
    ensures r.Success? ==> r.value == Snapshot(doc)
  {
    var parsed := Parse(po);
    if parsed.Failure? {
      return Failure(ParseFailed(parsed.error));
    }
    var idx := BuildIndex(parsed.value);
    if idx.Failure? {
      return Failure(idx.error);
    }
    if root != "osm" {
      return Success(Snapshot(doc));
    }
    r := Walk(idx.value, doc, lang);
  }

  // ----- properties -----

  /** One entry: the first tag for the key gets `value` set, or a new tag is
      appended when there is none; `modified` is raised unless the tag
      already held that `value`; nothing else changes. */
  lemma MergeTagEffect(cs: seq<Child>, key: string, value: string)
    ensures var (cs2, changed) := MergeTag(cs, key, value);
      var i := FindTag(cs, key);
      && (changed <==> !(i < |cs| && Get(cs[i].attrs, "value") == Some(value)))
      && FindTag(cs2, key) == i
      && |cs2| == (if i < |cs| then |cs| else |cs| + 1)
      && (forall j :: 0 <= j < |cs| && j != i ==> cs2[j] == cs[j])
      && (i < |cs| ==> cs2[i] == cs[i].(attrs := cs[i].attrs["value" := value]))
      && (i == |cs| ==> cs2[i] == NewTag(key, value))
  {
    var (cs2, changed) := MergeTag(cs, key, value);
    var i := FindTag(cs, key);
    if i < |cs| && Get(cs[i].attrs, "value") == Some(value) {
      assert cs[i].attrs["value" := value] == cs[i].attrs;
    }
    assert IsTagFor(cs2[i], key);
    assert forall j :: 0 <= j < i ==> cs2[j] == cs[j];
  }

  /** `IsTagFor` survives an entry for any key. */
  lemma MergeTagKeepsTags(cs: seq<Child>, key: string, value: string, other: string)
    requires FindTag(cs, other) < |cs|
    ensures FindTag(MergeTag(cs, key, value).0, other) < |MergeTag(cs, key, value).0|
  {
    MergeTagEffect(cs, key, value);
    var cs2 := MergeTag(cs, key, value).0;
    var j := FindTag(cs, other);
    assert IsTagFor(cs2[j], other) by {
      var i := FindTag(cs, key);
      if j == i {
        assert cs2[j].attrs == cs[j].attrs["value" := value];
        assert Get(cs2[j].attrs, "k") == Get(cs[j].attrs, "k");
      }
    }
  }

  /** After the entries of an element, every entry's key has a tag. */
  lemma {:induction false} TagsPresent(el: Element, es: seq<Entry>, lang: string, m: bool)
    ensures var r := MergeEntries(el, es, lang, m);
      forall k :: 0 <= k < |es| ==> FindTag(r.children, TagKey(es[k], lang)) < |r.children|
    decreases |es|
  {
    if es != [] {
      var key := TagKey(es[0], lang);
      var (cs, changed) := MergeTag(el.children, key, es[0].msgstr.GetOr(""));
      var m2 := m || changed;
      var el2 := Element(el.name, if m2 then el.attrs["action" := "modify"] else el.attrs, cs);
      TagsPresent(el2, es[1..], lang, m2);
      MergeTagEffect(el.children, key, es[0].msgstr.GetOr(""));
      KeepsTag(el2, es[1..], lang, m2, key);
      forall k | 0 < k < |es|
        ensures FindTag(MergeEntries(el, es, lang, m).children, TagKey(es[k], lang)) < |MergeEntries(el, es, lang, m).children|
      {
        assert es[k] == es[1..][k - 1];
      }
    }
  }

  /** A tag present stays present. */
  lemma {:induction false} KeepsTag(el: Element, es: seq<Entry>, lang: string, m: bool, key: string)
    requires FindTag(el.children, key) < |el.children|
    ensures FindTag(MergeEntries(el, es, lang, m).children, key) < |MergeEntries(el, es, lang, m).children|
    decreases |es|
  {
    if es != [] {
      var (cs, changed) := MergeTag(el.children, TagKey(es[0], lang), es[0].msgstr.GetOr(""));
      var m2 := m || changed;
      var el2 := Element(el.name, if m2 then el.attrs["action" := "modify"] else el.attrs, cs);
      MergeTagKeepsTags(el.children, TagKey(es[0], lang), es[0].msgstr.GetOr(""), key);
      KeepsTag(el2, es[1..], lang, m2, key);
    }
  }

  /** The element already carries the entry's translation in `value`. */
  predicate Settled(cs: seq<Child>, entry: Entry, lang: string) {
    var i := FindTag(cs, TagKey(entry, lang));
    i < |cs| && Get(cs[i].attrs, "value") == Some(entry.msgstr.GetOr(""))
  }

  /** Once raised, `modified` keeps `action=modify`. */
  lemma {:induction false} FlagStays(el: Element, es: seq<Entry>, lang: string)
    requires Get(el.attrs, "action") == Some("modify")
    ensures MergeEntries(el, es, lang, true).attrs == el.attrs
    ensures MergeEntries(el, es, lang, true).name == el.name
    decreases |es|
  {
    if es != [] {
      var cs := MergeTag(el.children, TagKey(es[0], lang), es[0].msgstr.GetOr("")).0;
      assert el.attrs["action" := "modify"] == el.attrs;
      FlagStays(Element(el.name, el.attrs, cs), es[1..], lang);
    }
  }

  /** An element whose entries are all settled is left exactly as it was;
      otherwise it is marked `action=modify` and keeps its name. */
  lemma {:induction false} ModifiedIff(el: Element, es: seq<Entry>, lang: string)
    ensures var r := MergeEntries(el, es, lang, false);
      && r.name == el.name
      && ((forall k :: 0 <= k < |es| ==> Settled(el.children, es[k], lang)) ==> r == el)
      && ((exists k :: 0 <= k < |es| && !Settled(el.children, es[k], lang)) ==>
            r.attrs == el.attrs["action" := "modify"])
    decreases |es|
  {
    if es != [] {
      var key := TagKey(es[0], lang);
      var value := es[0].msgstr.GetOr("");
      var (cs, changed) := MergeTag(el.children, key, value);
      MergeTagEffect(el.children, key, value);
      assert forall k :: 0 < k < |es| ==> es[k] == es[1..][k - 1];
      if changed {
        var el2 := Element(el.name, el.attrs["action" := "modify"], cs);
        FlagStays(el2, es[1..], lang);
        assert !Settled(el.children, es[0], lang);
      } else {
        assert cs == el.children;
        ModifiedIff(el, es[1..], lang);
        if exists k :: 0 <= k < |es| && !Settled(el.children, es[k], lang) {
          var k :| 0 <= k < |es| && !Settled(el.children, es[k], lang);
          assert k > 0 && es[1..][k - 1] == es[k];
        }
      }
    }
  }

  /** The new tag carries `v`, but the next merge looks at `value`: merging
      the same entry twice modifies the element both times, and the second
      time adds `value` next to `v`. */
  lemma SecondMergeModifies(cs: seq<Child>, key: string, value: string)
    requires FindTag(cs, key) == |cs|
    ensures var (cs1, c1) := MergeTag(cs, key, value);
      var (cs2, c2) := MergeTag(cs1, key, value);
      c1 && c2 && cs2 == cs + [Child("tag", map["k" := key, "v" := value, "value" := value])]
  {
    MergeTagEffect(cs, key, value);
    var cs1 := MergeTag(cs, key, value).0;
    MergeTagEffect(cs1, key, value);
    assert "value" !in NewTag(key, value).attrs;
  }

  lemma {:induction false} WalkPointwise(idx: Index, els: seq<Element>, lang: string, done: seq<Element>)
    requires WalkFrom(idx, els, lang, done).Success?
    ensures var out := WalkFrom(idx, els, lang, done).value;
      && |out| == |done| + |els| && out[..|done|] == done
      && forall j :: 0 <= j < |els| ==> WalkElement(idx, els[j], lang) == Success(out[|done| + j])
    decreases |els|
  {
    if els != [] {
      var el := WalkElement(idx, els[0], lang).value;
      WalkPointwise(idx, els[1..], lang, done + [el]);
      var out := WalkFrom(idx, els, lang, done).value;
      assert out[..|done| + 1] == done + [el];
      assert out[..|done|] == (done + [el])[..|done|];
      forall j | 0 < j < |els| ensures WalkElement(idx, els[j], lang) == Success(out[|done| + j]) {
        assert els[j] == els[1..][j - 1];
      }
    }
  }

  /** The walk fails exactly when some element's name mentions a type
      without being one. */
  lemma {:induction false} WalkFails(idx: Index, els: seq<Element>, lang: string, done: seq<Element>)
    ensures WalkFrom(idx, els, lang, done).Failure? <==>
      exists j :: 0 <= j < |els| && Mentions(els[j].name) && els[j].name !in idx
    decreases |els|
  {
    if els != [] {
      assert forall j :: 0 < j < |els| ==> els[j] == els[1..][j - 1];
      match WalkElement(idx, els[0], lang)
      case Failure(_) =>
      case Success(el) =>
        WalkFails(idx, els[1..], lang, done + [el]);
        if exists j :: 0 <= j < |els| && Mentions(els[j].name) && els[j].name !in idx {
          var j :| 0 <= j < |els| && Mentions(els[j].name) && els[j].name !in idx;
          assert j > 0 && els[1..][j - 1] == els[j];
        }
    }
  }

  /** The catalog's entries, when it parses. */
  function Entries(po: string): seq<Entry>
    requires ParseFrom(Lines(po), Start).Success?
  {
    ParseFrom(Lines(po), Start).value
  }

  /** A successful merge: under an `osm` root, an element whose name
      mentions a type is one of the three, and becomes the result of
      applying, in catalog order, the translated entries naming its type and
      its id; every other element is left as it was. */
  lemma MergeResult(po: string, root: string, els: seq<Element>, lang: string)
    requires MergeSpec(po, root, els, lang).Success?
    ensures ParseFrom(Lines(po), Start).Success?
    ensures var out := MergeSpec(po, root, els, lang).value;
      && |out| == |els|
      && (root != "osm" ==> out == els)
      && (root == "osm" ==> forall j :: 0 <= j < |els| ==>
           if Mentions(els[j].name) then
             els[j].name in Kinds &&
             out[j] == MergeEntries(els[j], Selected(Entries(po), els[j].name, Get(els[j].attrs, "id")), lang, false)
           else out[j] == els[j])
  {
    var entries := ParseFrom(Lines(po), Start).value;
    if root == "osm" {
      var idx := IndexFrom(entries, EmptyIndex).value;
      assert MergeSpec(po, root, els, lang) == WalkFrom(idx, els, lang, []);
      WalkResult(entries, idx, els, lang);
    }
  }

  /** A successful walk over the top-level elements, element by element. */
  lemma WalkResult(entries: seq<Entry>, idx: Index, els: seq<Element>, lang: string)
    requires IndexFrom(entries, EmptyIndex) == Success(idx)
    requires WalkFrom(idx, els, lang, []).Success?
    ensures var out := WalkFrom(idx, els, lang, []).value;
      && |out| == |els|
      && forall j :: 0 <= j < |els| ==>
           if Mentions(els[j].name) then
             els[j].name in Kinds &&
             out[j] == MergeEntries(els[j], Selected(entries, els[j].name, Get(els[j].attrs, "id")), lang, false)
           else out[j] == els[j]
  {
    var out := WalkFrom(idx, els, lang, []).value;
    WalkPointwise(idx, els, lang, []);
    forall j | 0 <= j < |els|
      ensures if Mentions(els[j].name) then
             els[j].name in Kinds &&
             out[j] == MergeEntries(els[j], Selected(entries, els[j].name, Get(els[j].attrs, "id")), lang, false)
           else out[j] == els[j]
    {
      assert WalkElement(idx, els[j], lang) == Success(out[j]);
      if Mentions(els[j].name) {
        ElementMerged(entries, idx, els[j], lang, out[j]);
      }
    }
  }

  /** One step of a successful walk on an element whose name mentions a
      type: the element has one of the three types and takes exactly its own
      translated entries. */
  lemma ElementMerged(entries: seq<Entry>, idx: Index, el: Element, lang: string, o: Element)
    requires IndexFrom(entries, EmptyIndex) == Success(idx)
    requires Mentions(el.name) && WalkElement(idx, el, lang) == Success(o)
    ensures el.name in Kinds
    ensures o == MergeEntries(el, Selected(entries, el.name, Get(el.attrs, "id")), lang, false)
  {
    var t := el.name;
    var id := Get(el.attrs, "id");
    IndexGroups(entries, EmptyIndex, "way", None);
    assert t in idx;
    assert t in Kinds;
    IndexGroups(entries, EmptyIndex, t, id);
    assert Bucket(EmptyIndex, t, id) == [];
    assert Bucket(idx, t, id) == Selected(entries, t, id);
    if id in idx[t] {
      assert o == MergeEntries(el, idx[t][id], lang, false);
    } else {
      assert Selected(entries, t, id) == [];
      assert o == el;
    }
  }

  /** With a readable catalog under an `osm` root, the merge fails exactly
      when an element's name mentions a type without being one (such as
      `waypoint`). */
  lemma MergeFails(po: string, els: seq<Element>, lang: string)
    requires ParseFrom(Lines(po), Start).Success?
    requires IndexFrom(Entries(po), EmptyIndex).Success?
    ensures MergeSpec(po, "osm", els, lang).Failure? <==>
      exists j :: 0 <= j < |els| && Mentions(els[j].name) && els[j].name !in Kinds
  {
    var idx := IndexFrom(Entries(po), EmptyIndex).value;
    IndexGroups(Entries(po), EmptyIndex, "way", None);
    WalkFails(idx, els, lang, []);
  }
}
