/** The extractor of osm2po.rb: `Translator#xgettext` (osm2po.rb:68-90) and
    the `is_tagged?` guards of `TranslateCallbacks` (osm2po.rb:149-171). */
module Extract {
  import opened Wrappers
  import opened Rules
  import opened XmlRefs
  import opened PoEscape

  function CommentText(k: string, v: string): string {
    "#. " + k + "=" + v
  }

  function CommentLine(k: string, v: string): string {
    CommentText(k, v) + "\n"
  }

  /** One `#. k=v` line per tag, in tag order, values as they are. */
  function CommentLines(tags: seq<(string, string)>): string {
    if tags == [] then ""
    else
      var (k, v) := tags[|tags| - 1];
      CommentLines(tags[..|tags| - 1]) + CommentLine(k, v)
  }

  function RefText(e: Record, key: string): string {
    "#: " + TypeName(e.kind) + ":" + e.id + ":" + key
  }

  function RefLine(e: Record, key: string): string {
    RefText(e, key) + "\n"
  }

  function MsgText(field: string, text: string): string {
    field + " \"" + text + "\""
  }

  function MsgLine(field: string, text: string): string {
    MsgText(field, text) + "\n"
  }

  /** The block emitted for `key`, whose value on `e` is `v`. */
  function Block(e: Record, key: string, v: string, lang: string): Result<string, DecodeError> {
    var id :- UnnormalizeSpec(v, {});
    var head := "\n" + CommentLines(e.tags) + RefLine(e, key) + MsgLine("msgid", Escape(id));
    match Lookup(e.tags, key + ":" + lang)
    case None => Success(head + MsgLine("msgstr", ""))
    case Some(tr) =>
      var str :- UnnormalizeSpec(tr, {});
      Success(head + MsgLine("msgstr", Escape(str)))
  }

  /** The loop of `xgettext` over the remaining `keys`, with `s` the text so
      far: a key without a value is skipped, and a key with one REPLACES `s`
      by its block (`s = "\n"`, osm2po.rb:75). */
  function ExportFrom(keys: seq<string>, e: Record, lang: string, s: string): Result<string, DecodeError>
    decreases |keys|
  {
    if keys == [] then Success(s)
    else match Lookup(e.tags, keys[0])
      case None => ExportFrom(keys[1..], e, lang, s)
      case Some(v) =>
        var b :- Block(e, keys[0], v, lang);
        ExportFrom(keys[1..], e, lang, b)
  }

  /** The body of the `tags.each` loop for a key `key` whose value is `v`
      (osm2po.rb:75-87): restart `s` at a newline, add the comment lines, the
      reference and the two message lines. */
  method EmitBlock(e: Record, key: string, v: string, lang: string) returns (r: Result<string, DecodeError>)
    ensures r == Block(e, key, v, lang)
  {
    var s := "\n";
    var j := 0;
    while j < |e.tags|
      invariant 0 <= j <= |e.tags|
      invariant s == "\n" + CommentLines(e.tags[..j])
    {
      assert e.tags[..j + 1][..j] == e.tags[..j];
      var (k, tv) := e.tags[j];
      s := s + CommentLine(k, tv);
      j := j + 1;
    }
    assert e.tags[..j] == e.tags;
    s := s + RefLine(e, key);
    var id := Unnormalize(v, {});
    if id.Failure? {
      return Failure(id.error);
    }
    s := s + MsgLine("msgid", Escape(id.value));
    var translation := Lookup(e.tags, key + ":" + lang);
    if translation.None? {
      s := s + MsgLine("msgstr", "");
    } else {
      var str := Unnormalize(translation.value, {});
      if str.Failure? {
        return Failure(str.error);
      }
      s := s + MsgLine("msgstr", Escape(str.value));
    }
    r := Success(s);
  }

  /** `Translator#xgettext`. The element is a value, so the method cannot
      change it; in the source, too, only clones are rewritten. */
  method Xgettext(t: Translator, e: Record) returns (r: Result<string, DecodeError>)
    ensures r == ExportFrom(Matched(t.rules, e), e, t.lang, "")
  {
    var tags := Match(t, e);
    var s := "";
    var i := 0;
    while i < |tags|
      invariant 0 <= i <= |tags|
      invariant ExportFrom(tags[i..], e, t.lang, s) == ExportFrom(tags, e, t.lang, "")
    {
      assert tags[i..][1..] == tags[i + 1..];
      var key := tags[i];
      var value := Lookup(e.tags, key);
      if value.Some? {
        var b := EmitBlock(e, key, value.value, t.lang);
        if b.Failure? {
          return Failure(b.error);
        }
        s := b.value;
      }
      i := i + 1;
    }
    r := Success(s);
  }

  /** A `node`, `way` or `relation` callback: an untagged element is declined
      and prints nothing; a tagged one prints its `xgettext` text. */
  method Visit(t: Translator, e: Record) returns (handled: bool, printed: Result<string, DecodeError>)
    ensures handled == IsTagged(e)
    ensures printed == if IsTagged(e) then ExportFrom(Matched(t.rules, e), e, t.lang, "") else Success("")
  {
    if !IsTagged(e) {
      return false, Success("");
    }
    printed := Xgettext(t, e);
    handled := true;
  }

  // ----- properties -----

  /** The last key of `keys` that has a value on `e`. */
  function LastValued(keys: seq<string>, e: Record): (r: Option<string>)
    ensures r.Some? ==> r.value in keys && Lookup(e.tags, r.value).Some?
    ensures r.None? <==> forall i :: 0 <= i < |keys| ==> Lookup(e.tags, keys[i]).None?
    ensures r.Some? ==> exists i :: 0 <= i < |keys| && keys[i] == r.value &&
                                    (forall j :: i < j < |keys| ==> Lookup(e.tags, keys[j]).None?)
  {
    if keys == [] then None
    else
      var rest := LastValued(keys[1..], e);
      assert forall i :: 0 < i < |keys| ==> keys[i] == keys[1..][i - 1];
      match rest
      case Some(k) => Some(k)
      case None => if Lookup(e.tags, keys[0]).Some? then Some(keys[0]) else None
  }

  /** Every block starts with the blank line that separates catalog entries. */
  lemma BlockStartsBlank(e: Record, key: string, v: string, lang: string)
    requires Block(e, key, v, lang).Success?
    ensures |Block(e, key, v, lang).value| > 0 && Block(e, key, v, lang).value[0] == '\n'
  {
  }

  /** Only the block of the last key with a value survives: `s` is
      reassigned, not appended to (osm2po.rb:75). With no such key the text
      so far is returned as it is. */
  lemma {:induction false} ExportKeepsLast(keys: seq<string>, e: Record, lang: string, s: string)
    ensures var r := ExportFrom(keys, e, lang, s);
      r.Success? ==>
        match LastValued(keys, e)
        case None => r.value == s
        case Some(k) => Block(e, k, Lookup(e.tags, k).value, lang) == Success(r.value)
    decreases |keys|
  {
    if keys != [] {
      match Lookup(e.tags, keys[0])
      case None =>
        ExportKeepsLast(keys[1..], e, lang, s);
      case Some(v) =>
        var b := Block(e, keys[0], v, lang);
        if b.Success? {
          ExportKeepsLast(keys[1..], e, lang, b.value);
        }
    }
  }

  /** `key` has a value on `e` whose block cannot be decoded. */
  predicate KeyFails(e: Record, key: string, lang: string) {
    Lookup(e.tags, key).Some? && Block(e, key, Lookup(e.tags, key).value, lang).Failure?
  }

  /** The export fails exactly when decoding fails for some key that has a
      value, even one whose block would be overwritten later. */
  lemma {:induction false} ExportFails(keys: seq<string>, e: Record, lang: string, s: string)
    ensures ExportFrom(keys, e, lang, s).Failure? <==>
      exists i :: 0 <= i < |keys| && KeyFails(e, keys[i], lang)
    decreases |keys|
  {
    if keys != [] {
      var r := ExportFrom(keys, e, lang, s);
      var next := match Lookup(e.tags, keys[0])
        case None => Success(s)
        case Some(v) => Block(e, keys[0], v, lang);
      assert next.Failure? <==> KeyFails(e, keys[0], lang);
      if next.Success? {
        assert r == ExportFrom(keys[1..], e, lang, next.value);
        ExportFails(keys[1..], e, lang, next.value);
        if exists i :: 0 <= i < |keys| && KeyFails(e, keys[i], lang) {
          var i :| 0 <= i < |keys| && KeyFails(e, keys[i], lang);
          assert i != 0 by { assert !KeyFails(e, keys[0], lang); }
          assert keys[1..][i - 1] == keys[i];
        }
        if r.Failure? {
          var i :| 0 <= i < |keys[1..]| && KeyFails(e, keys[1..][i], lang);
          assert keys[i + 1] == keys[1..][i];
        }
      } else {
        assert r.Failure?;
      }
    }
  }

  lemma {:induction false} ExportUnvalued(keys: seq<string>, e: Record, lang: string, s: string)
    requires forall i :: 0 <= i < |keys| ==> Lookup(e.tags, keys[i]).None?
    ensures ExportFrom(keys, e, lang, s) == Success(s)
    decreases |keys|
  {
    if keys != [] {
      assert Lookup(e.tags, keys[0]).None?;
      assert forall i :: 0 < i < |keys| ==> keys[i] == keys[1..][i - 1];
      ExportUnvalued(keys[1..], e, lang, s);
    }
  }

  /** `xgettext` returns `""` exactly when no matched key has a value. */
  lemma ExportEmpty(keys: seq<string>, e: Record, lang: string)
    ensures ExportFrom(keys, e, lang, "") == Success("") <==>
      forall i :: 0 <= i < |keys| ==> Lookup(e.tags, keys[i]).None?
  {
    if forall i :: 0 <= i < |keys| ==> Lookup(e.tags, keys[i]).None? {
      ExportUnvalued(keys, e, lang, "");
    } else {
      var r := ExportFrom(keys, e, lang, "");
      ExportKeepsLast(keys, e, lang, "");
      if r.Success? {
        var k := LastValued(keys, e).value;
        BlockStartsBlank(e, k, Lookup(e.tags, k).value, lang);
      }
    }
  }

  /** The `is_tagged?` guard changes only the callback's return value: an
      untagged element has no values, so its export is empty anyway. */
  lemma UntaggedExportsNothing(t: Translator, e: Record)
    requires !IsTagged(e)
    ensures ExportFrom(Matched(t.rules, e), e, t.lang, "") == Success("")
  {
    ExportEmpty(Matched(t.rules, e), e, t.lang);
  }
}
