/** The XML reference decoder of osm2po.rb: `unnormalize` (osm2po.rb:116-146),
    `entity` (osm2po.rb:104-112) and `DEFAULT_ENTITIES` (osm2po.rb:97-102).
    It decodes character references (XML 1.0, section 4.1) and the predefined
    entities (XML 1.0, section 4.6) `gt`, `lt`, `quot`, `apos`, and `amp` last.
    Only the default entity table is modelled: every caller passes `nil`. */
module XmlRefs {
  import opened Wrappers
  import opened Text

  /** What `[Integer(m)].pack('U*')` does with a code point that is not a
      character: Ruby raises `RangeError` above 0x7FFFFFFF; surrogates and
      code points from 0x110000 up are bytes Ruby writes but a Unicode
      character of the model cannot hold. */
  datatype DecodeError = RangeError(codePoint: int) | Unrepresentable(codePoint: int)

  /** `gsub!(/\r\n?/, "\n")`: CRLF and lone CR become LF. */
  function NormalizeNewlines(s: string): (r: string)
    ensures forall i :: 0 <= i < |r| ==> r[i] != '\r'
    ensures forall i :: 0 <= i < |r| ==> r[i] == '\n' || r[i] in s
    ensures (forall i :: 0 <= i < |s| ==> s[i] != '\r') ==> r == s
    decreases |s|
  {
    if s == [] then []
    else if |s| >= 2 && s[0] == '\r' && s[1] == '\n' then "\n" + NormalizeNewlines(s[2..])
    else if s[0] == '\r' then "\n" + NormalizeNewlines(s[1..])
    else [s[0]] + NormalizeNewlines(s[1..])
  }

  /** Replacing a single character looks at one character at a time. */
  lemma ReplaceCharHead(c: char, x: string, pat: char, rep: string)
    ensures ReplaceAll([c] + x, [pat], rep) == (if c == pat then rep else [c]) + ReplaceAll(x, [pat], rep)
  {
    assert ([c] + x)[..1] == [c] && ([c] + x)[1..] == x;
  }

  /** `/\r\n?/` amounts to replacing every CRLF by LF and then every remaining
      CR by LF: each line end becomes exactly one LF and every other
      character stays, in order. */
  lemma {:induction false} NewlinesAsReplacements(s: string)
    ensures NormalizeNewlines(s) == ReplaceAll(ReplaceAll(s, "\r\n", "\n"), "\r", "\n")
    decreases |s|
  {
    if s != [] {
      if |s| >= 2 && s[0] == '\r' && s[1] == '\n' {
        assert s[..2] == "\r\n";
        var t := ReplaceAll(s[2..], "\r\n", "\n");
        NewlinesAsReplacements(s[2..]);
        ReplaceCharHead('\n', t, '\r', "\n");
      } else {
        assert |s| >= 2 ==> s[..2] != "\r\n";
        var t := ReplaceAll(s[1..], "\r\n", "\n");
        assert |s| == 1 ==> s == [s[0]] + t;
        NewlinesAsReplacements(s[1..]);
        ReplaceCharHead(s[0], t, '\r', "\n");
      }
    }
  }

  // ----- the scanner for REFERENCE_RE (osm2po.rb:91-96) -----

  /** `[\w:]`, the first character of NAME. */
  predicate NameStart(c: char) {
    IsWordChar(c) || c == ':'
  }

  datatype CharClass = NameChars | Digits | HexDigits | Zeros

  predicate InClass(c: char, k: CharClass) {
    match k
    case NameChars => c == '-' || IsWordChar(c) || c == '.' || c == ':'
    case Digits => IsDigit(c)
    case HexDigits => IsHexDigit(c)
    case Zeros => c == '0'
  }

  /** The end of the longest run of class `k` characters starting at `i`. */
  function RunEnd(s: string, i: nat, k: CharClass): (j: nat)
    requires i <= |s|
    ensures i <= j <= |s|
    ensures forall m :: i <= m < j ==> InClass(s[m], k)
    ensures j < |s| ==> !InClass(s[j], k)
    decreases |s| - i
  {
    if i < |s| && InClass(s[i], k) then RunEnd(s, i + 1, k) else i
  }

  /** A match of REFERENCE_RE: its length and, for `&NAME;`, the name. */
  datatype RefMatch = RefMatch(len: nat, name: Option<string>)

  /** REFERENCE_RE = `&NAME;` | `&#\d+;` | `&#x[0-9a-fA-F]+;`, tried at `i`. */
  function RefAt(s: string, i: nat): (m: Option<RefMatch>)
    requires i < |s|
    ensures m.Some? ==> 0 < m.value.len && i + m.value.len <= |s|
  {
    if s[i] != '&' || i + 1 >= |s| then None
    else if NameStart(s[i + 1]) then
      var j := RunEnd(s, i + 1, NameChars);
      if j < |s| && s[j] == ';' then Some(RefMatch(j + 1 - i, Some(s[i + 1..j]))) else None
    else if s[i + 1] != '#' then None
    else if i + 2 < |s| && s[i + 2] == 'x' then
      var j := RunEnd(s, i + 3, HexDigits);
      if i + 3 < j < |s| && s[j] == ';' then Some(RefMatch(j + 1 - i, None)) else None
    else
      var j := RunEnd(s, i + 2, Digits);
      if i + 2 < j < |s| && s[j] == ';' then Some(RefMatch(j + 1 - i, None)) else None
  }

  /** `rv.scan(REFERENCE_RE)` from position `i`: one item per match, holding
      the name group (`None` for a numeric reference). */
  function Scan(s: string, i: nat): seq<Option<string>>
    requires i <= |s|
    decreases |s| - i
  {
    if i == |s| then []
    else match RefAt(s, i)
      case Some(m) => [m.name] + Scan(s, i + m.len)
      case None => Scan(s, i + 1)
  }

  /** `matches.collect!{|x|x[0]}.compact!`: the names, in scan order. */
  function Names(ms: seq<Option<string>>): seq<string> {
    if ms == [] then []
    else (if ms[0].Some? then [ms[0].value] else []) + Names(ms[1..])
  }

  // ----- numeric references: /&#0*((?:\d+)|(?:x[a-fA-F0-9]+));/ (osm2po.rb:121-125) -----

  function DigitValue(c: char): nat {
    if '0' <= c <= '9' then (c as int - '0' as int) as nat
    else if 'a' <= c <= 'f' then (c as int - 'a' as int + 10) as nat
    else if 'A' <= c <= 'F' then (c as int - 'A' as int + 10) as nat
    else 0
  }

  /** The number the digits of `ds` spell in base `b`; leading zeros add nothing. */
  function Value(ds: string, b: nat): nat {
    if ds == [] then 0 else Value(ds[..|ds| - 1], b) * b + DigitValue(ds[|ds| - 1])
  }

  /** A match of the numeric pattern at `i`: its length and its code point.
      With back-tracking, `0*` followed by `\d+` amounts to "all the digits",
      and `0*` followed by `x` amounts to "leading zeros, then x". */
  function NumRefAt(s: string, i: nat): (m: Option<(nat, nat)>)
    requires i < |s|
    ensures m.Some? ==> 0 < m.value.0 && i + m.value.0 <= |s|
  {
    if s[i] != '&' || i + 1 >= |s| || s[i + 1] != '#' then None
    else
      var e := RunEnd(s, i + 2, Digits);
      if i + 2 < e < |s| && s[e] == ';' then Some((e + 1 - i, Value(s[i + 2..e], 10)))
      else
        var z := RunEnd(s, i + 2, Zeros);
        if z < |s| && s[z] == 'x' then
          var h := RunEnd(s, z + 1, HexDigits);
          if z + 1 < h < |s| && s[h] == ';' then Some((h + 1 - i, Value(s[z + 1..h], 16))) else None
        else None
  }

  /** `[cp].pack('U*')`, keeping what a Unicode character can hold. */
  function ToChar(cp: nat): Result<char, DecodeError> {
    if cp > 0x7FFF_FFFF then Failure(RangeError(cp))
    else if cp >= 0x11_0000 || 0xD800 <= cp < 0xE000 then Failure(Unrepresentable(cp))
    else Success(cp as char)
  }

  /** The `gsub!` of numeric references, left to right; the first code point
      that cannot be packed aborts. */
  function DecodeNumeric(s: string, i: nat): Result<string, DecodeError>
    requires i <= |s|
    decreases |s| - i
  {
    if i == |s| then Success([])
    else match NumRefAt(s, i)
      case Some(m) =>
        var c :- ToChar(m.1);
        var rest :- DecodeNumeric(s, i + m.0);
        Success([c] + rest)
      case None =>
        var rest :- DecodeNumeric(s, i + 1);
        Success([s[i]] + rest)
  }

  // ----- named references -----

  /** Column 2 of `DEFAULT_ENTITIES`: the text each predefined entity stands for. */
  function DefaultEntity(name: string): Option<char> {
    if name == "gt" then Some('>')
    else if name == "lt" then Some('<')
    else if name == "quot" then Some('"')
    else if name == "apos" then Some('\'')
    else None
  }

  /** `entity(reference, nil)`: the default table's value, which `entity`
      passes through `unnormalize`; EntityValuesAreFixed shows that this
      leaves each of the four values as it is. */
  function Entity(name: string): (r: Option<string>)
    ensures r.Some? <==> name == "gt" || name == "lt" || name == "quot" || name == "apos"
    ensures r.Some? ==> |r.value| == 1 && r.value[0] != '&' && r.value[0] != '\r'
  {
    match DefaultEntity(name)
    case Some(c) => Some([c])
    case None => None
  }

  function Reference(name: string): string {
    "&" + name + ";"
  }

  /** The first `matches.each` loop (osm2po.rb:128-136). */
  function ApplyEntities(rv: string, names: seq<string>, filter: set<string>): string
    decreases |names|
  {
    if names == [] then rv
    else
      var n := names[0];
      var next := if n !in filter && Entity(n).Some? then ReplaceAll(rv, Reference(n), Entity(n).value) else rv;
      ApplyEntities(next, names[1..], filter)
  }

  /** The second `matches.each` loop (osm2po.rb:137-142). */
  function ApplyDefaults(rv: string, names: seq<string>, filter: set<string>): string
    decreases |names|
  {
    if names == [] then rv
    else
      var n := names[0];
      var next := if n !in filter && DefaultEntity(n).Some? then ReplaceAll(rv, Reference(n), [DefaultEntity(n).value]) else rv;
      ApplyDefaults(next, names[1..], filter)
  }

  /** One name of the first loop, then the rest of it. */
  lemma EntitiesStep(rv: string, names: seq<string>, i: nat, filter: set<string>)
    requires i < |names|
    ensures var n := names[i];
      ApplyEntities(rv, names[i..], filter) ==
        ApplyEntities(if n !in filter && Entity(n).Some? then ReplaceAll(rv, Reference(n), Entity(n).value) else rv,
                      names[i + 1..], filter)
  {
    assert names[i..][0] == names[i] && names[i..][1..] == names[i + 1..];
  }

  /** One name of the second loop, then the rest of it. */
  lemma DefaultsStep(rv: string, names: seq<string>, i: nat, filter: set<string>)
    requires i < |names|
    ensures var n := names[i];
      ApplyDefaults(rv, names[i..], filter) ==
        ApplyDefaults(if n !in filter && DefaultEntity(n).Some? then ReplaceAll(rv, Reference(n), [DefaultEntity(n).value]) else rv,
                      names[i + 1..], filter)
  {
    assert names[i..][0] == names[i] && names[i..][1..] == names[i + 1..];
  }

  /** What `unnormalize(string, nil, filter)` returns. */
  function UnnormalizeSpec(s: string, filter: set<string>): Result<string, DecodeError> {
    var rv := NormalizeNewlines(s);
    var ms := Scan(rv, 0);
    if |ms| == 0 then Success(rv)
    else
      var rv1 :- DecodeNumeric(rv, 0);
      var names := Names(ms);
      if |names| == 0 then Success(rv1)
      else Success(ReplaceAll(ApplyDefaults(ApplyEntities(rv1, names, filter), names, filter), "&amp;", "&"))
  }

  /** `unnormalize`: normalise line ends, scan for references, take the fast
      path when there are none, decode numeric references, then run the two
      loops over the names and decode `&amp;` last. */
  method Unnormalize(s: string, filter: set<string>) returns (r: Result<string, DecodeError>)
    ensures r == UnnormalizeSpec(s, filter)
  {
    var rv := NormalizeNewlines(s);
    var matches := Scan(rv, 0);
    if |matches| == 0 {
      return Success(rv);
    }
    var decoded := DecodeNumeric(rv, 0);
    if decoded.Failure? {
      return Failure(decoded.error);
    }
    rv := decoded.value;
    var names := Names(matches);
    if |names| > 0 {
      ghost var rv1 := rv;
      var i := 0;
      while i < |names|
        invariant 0 <= i <= |names|
        invariant ApplyEntities(rv, names[i..], filter) == ApplyEntities(rv1, names, filter)
      {
        EntitiesStep(rv, names, i, filter);
        var n := names[i];
        if n !in filter {
          var value := Entity(n);
          if value.Some? {
            rv := ReplaceAll(rv, Reference(n), value.value);
          }
        }
        i := i + 1;
      }
      ghost var rv2 := rv;
      i := 0;
      while i < |names|
        invariant 0 <= i <= |names|
        invariant ApplyDefaults(rv, names[i..], filter) == ApplyDefaults(rv2, names, filter)
      {
        DefaultsStep(rv, names, i, filter);
        var n := names[i];
        if n !in filter {
          var er := DefaultEntity(n);
          if er.Some? {
            rv := ReplaceAll(rv, Reference(n), [er.value]);
          }
        }
        i := i + 1;
      }
      rv := ReplaceAll(rv, "&amp;", "&");
    }
    return Success(rv);
  }

  // ----- properties -----

  predicate AllIn(ds: string, k: CharClass) {
    forall m :: 0 <= m < |ds| ==> InClass(ds[m], k)
  }

  /** A well-formed NAME of REFERENCE_RE. */
  predicate IsName(n: string) {
    |n| > 0 && NameStart(n[0]) && AllIn(n, NameChars)
  }

  lemma {:induction false} ScanNoAmp(s: string, i: nat)
    requires i <= |s|
    requires forall m :: i <= m < |s| ==> s[m] != '&'
    ensures Scan(s, i) == []
    decreases |s| - i
  {
    if i < |s| {
      ScanNoAmp(s, i + 1);
    }
  }

  lemma {:induction false} DecodeNoAmp(s: string, i: nat)
    requires i <= |s|
    requires forall m :: i <= m < |s| ==> s[m] != '&'
    ensures DecodeNumeric(s, i) == Success(s[i..])
    decreases |s| - i
  {
    if i < |s| {
      DecodeNoAmp(s, i + 1);
      assert s[i..] == [s[i]] + s[i + 1..];
    }
  }

  /** No `&` and no CR: text that starts no reference and that line-end
      normalisation leaves alone. */
  predicate Plain(t: string) {
    forall i :: 0 <= i < |t| ==> t[i] != '&' && t[i] != '\r'
  }

  lemma {:induction false} ScanSkip(s: string, i: nat, j: nat)
    requires i <= j <= |s|
    requires forall m :: i <= m < j ==> s[m] != '&'
    ensures Scan(s, i) == Scan(s, j)
    decreases j - i
  {
    if i < j {
      ScanSkip(s, i + 1, j);
    }
  }

  lemma {:induction false} ScanNone(s: string, i: nat)
    requires i <= |s|
    requires forall m :: i <= m < |s| ==> RefAt(s, m).None?
    ensures Scan(s, i) == []
    decreases |s| - i
  {
    if i < |s| {
      ScanNone(s, i + 1);
    }
  }

  /** One character other than `&` passes the numeric decoding unchanged. */
  lemma PlainStep(s: string, i: nat, t: string)
    requires i < |s| && s[i] != '&' && DecodeNumeric(s, i + 1) == Success(t)
    ensures DecodeNumeric(s, i) == Success([s[i]] + t)
  {
  }

  lemma PlainStepFailure(s: string, i: nat, err: DecodeError)
    requires i < |s| && s[i] != '&' && DecodeNumeric(s, i + 1) == Failure(err)
    ensures DecodeNumeric(s, i) == Failure(err)
  {
  }

  /** Characters other than `&` pass the numeric decoding unchanged… */
  lemma {:induction false} DecodeSkip(s: string, i: nat, j: nat, t: string)
    requires i <= j <= |s|
    requires forall m :: i <= m < j ==> s[m] != '&'
    requires DecodeNumeric(s, j) == Success(t)
    ensures DecodeNumeric(s, i) == Success(s[i..j] + t)
    decreases j - i
  {
    if i < j {
      DecodeSkip(s, i + 1, j, t);
      PlainStep(s, i, s[i + 1..j] + t);
      assert s[i..j] == [s[i]] + s[i + 1..j];
      Assoc([s[i]], s[i + 1..j], t);
    } else {
      assert s[i..j] + t == t;
    }
  }

  /** …and do not prevent a later failure. */
  lemma {:induction false} DecodeSkipFailure(s: string, i: nat, j: nat, err: DecodeError)
    requires i <= j <= |s|
    requires forall m :: i <= m < j ==> s[m] != '&'
    requires DecodeNumeric(s, j) == Failure(err)
    ensures DecodeNumeric(s, i) == Failure(err)
    decreases j - i
  {
    if i < j {
      DecodeSkipFailure(s, i + 1, j, err);
      assert s[i] != '&';
      PlainStepFailure(s, i, err);
    } else {
      assert i == j;
    }
  }

  /** Fast path (osm2po.rb:119-120): when no position of the normalised text
      starts a reference, `unnormalize` returns it without decoding anything,
      so a lone `&` (as in `Marks & Spencer`) stays as it is. */
  lemma NoReference(s: string, filter: set<string>)
    requires forall i :: 0 <= i < |NormalizeNewlines(s)| ==> RefAt(NormalizeNewlines(s), i).None?
    ensures UnnormalizeSpec(s, filter) == Success(NormalizeNewlines(s))
  {
    ScanNone(NormalizeNewlines(s), 0);
  }

  /** Text without any `&` is only line-end normalised, and text without
      `&` and CR comes back unchanged. */
  lemma PlainText(s: string, filter: set<string>)
    requires forall i :: 0 <= i < |s| ==> s[i] != '&'
    ensures UnnormalizeSpec(s, filter) == Success(NormalizeNewlines(s))
    ensures (forall i :: 0 <= i < |s| ==> s[i] != '\r') ==> UnnormalizeSpec(s, filter) == Success(s)
  {
    var rv := NormalizeNewlines(s);
    assert forall m :: 0 <= m < |rv| ==> rv[m] != '&' by {
      forall m | 0 <= m < |rv| ensures rv[m] != '&' {
        assert rv[m] == '\n' || rv[m] in s;
      }
    }
    ScanNoAmp(rv, 0);
  }

  /** An `&` followed by something no reference can start with (a space, the
      end of the text) between plain texts is returned literally. */
  lemma LoneAmpersand(a: string, b: string, filter: set<string>)
    requires Plain(a) && Plain(b)
    requires |b| > 0 ==> !NameStart(b[0]) && b[0] != '#'
    ensures UnnormalizeSpec(a + "&" + b, filter) == Success(a + "&" + b)
  {
    var s := a + "&" + b;
    var p := |a|;
    assert forall m :: 0 <= m < p ==> s[m] == a[m];
    assert forall m :: p < m < |s| ==> s[m] == b[m - p - 1];
    assert forall m :: 0 <= m < |s| ==> s[m] != '\r';
    forall m | 0 <= m < |s| ensures RefAt(s, m).None? {
      if m == p && p + 1 < |s| {
        assert s[p + 1] == b[0];
      }
    }
    NoReference(s, filter);
  }

  /** The recursion of `entity` into `unnormalize` returns each default
      value unchanged, so a table lookup is all `entity` does. */
  lemma EntityValuesAreFixed(name: string)
    requires Entity(name).Some?
    ensures UnnormalizeSpec(Entity(name).value, {}) == Success(Entity(name).value)
  {
    PlainText(Entity(name).value, {});
  }

  /** The characters a reference text may hold: an opening `&`, no other
      `&`, and no CR. */
  predicate RefChars(r: string) {
    |r| > 0 && r[0] == '&' && forall m :: 0 <= m < |r| ==> r[m] != '\r' && (m > 0 ==> r[m] != '&')
  }

  /** A reference between plain texts: the only `&` of the whole text is the
      one that opens the reference, and there is no CR. */
  lemma Around(a: string, r: string, b: string, s: string)
    requires Plain(a) && Plain(b) && RefChars(r) && s == a + r + b
    ensures forall m :: 0 <= m < |s| ==> s[m] != '\r' && (m != |a| ==> s[m] != '&')
    ensures s[..|a|] == a && s[|a| + |r|..] == b && s == a + (r + b)
  {
    forall m | 0 <= m < |s| ensures s[m] != '\r' && (m != |a| ==> s[m] != '&') {
      if m < |a| {
        assert s[m] == a[m];
      } else if m < |a| + |r| {
        assert s[m] == r[m - |a|];
      } else {
        assert s[m] == b[m - |a| - |r|];
      }
    }
  }

  lemma {:induction false} RunEndShift(a: string, t: string, i: nat, k: CharClass)
    requires i <= |t|
    ensures RunEnd(a + t, |a| + i, k) == |a| + RunEnd(t, i, k)
    decreases |t| - i
  {
    if i < |t| {
      assert (a + t)[|a| + i] == t[i];
      RunEndShift(a, t, i + 1, k);
    }
  }

  lemma NameRefShift(a: string, t: string)
    requires |t| > 1 && t[0] == '&' && NameStart(t[1])
    ensures RefAt(a + t, |a|) == RefAt(t, 0)
  {
    var s := a + t;
    var p := |a|;
    assert s[p] == t[0] && s[p + 1] == t[1];
    RunEndShift(a, t, 1, NameChars);
    var j := RunEnd(t, 1, NameChars);
    if j < |t| {
      assert s[p + j] == t[j];
    }
    assert s[p + 1..p + j] == t[1..j];
  }

  lemma HexRefShift(a: string, t: string)
    requires |t| > 2 && t[0] == '&' && t[1] == '#' && t[2] == 'x'
    ensures RefAt(a + t, |a|) == RefAt(t, 0)
  {
    var s := a + t;
    var p := |a|;
    assert s[p] == t[0] && s[p + 1] == t[1] && s[p + 2] == t[2];
    RunEndShift(a, t, 3, HexDigits);
    var j := RunEnd(t, 3, HexDigits);
    if j < |t| {
      assert s[p + j] == t[j];
    }
  }

  lemma DecRefShift(a: string, t: string)
    requires |t| > 1 && t[0] == '&' && t[1] == '#' && !(|t| > 2 && t[2] == 'x')
    ensures RefAt(a + t, |a|) == RefAt(t, 0)
  {
    var s := a + t;
    var p := |a|;
    assert s[p] == t[0] && s[p + 1] == t[1];
    if |t| > 2 {
      assert s[p + 2] == t[2];
    }
    RunEndShift(a, t, 2, Digits);
    var j := RunEnd(t, 2, Digits);
    if j < |t| {
      assert s[p + j] == t[j];
    }
  }

  /** REFERENCE_RE looks only at the text from where it is tried. */
  lemma RefAtShift(a: string, t: string)
    requires |t| > 0
    ensures RefAt(a + t, |a|) == RefAt(t, 0)
  {
    var s := a + t;
    var p := |a|;
    assert s[p] == t[0];
    if |t| > 1 && t[0] == '&' {
      assert s[p + 1] == t[1];
      if NameStart(t[1]) {
        NameRefShift(a, t);
      } else if t[1] == '#' {
        if |t| > 2 && t[2] == 'x' {
          HexRefShift(a, t);
        } else {
          DecRefShift(a, t);
        }
      }
    }
  }

  /** The hexadecimal digits after `&#0…0x`, looked at from either text. */
  lemma HexTailShift(a: string, t: string, z: nat)
    requires 2 <= z < |t|
    ensures var h := RunEnd(t, z + 1, HexDigits);
      RunEnd(a + t, |a| + z + 1, HexDigits) == |a| + h && (a + t)[|a| + z + 1..|a| + h] == t[z + 1..h]
  {
    RunEndShift(a, t, z + 1, HexDigits);
  }

  /** So does the numeric pattern, for a decimal reference… */
  lemma DecimalNumShift(a: string, t: string)
    requires |t| > 2 && t[0] == '&' && t[1] == '#'
    requires var e := RunEnd(t, 2, Digits); 2 < e < |t| && t[e] == ';'
    ensures NumRefAt(a + t, |a|) == NumRefAt(t, 0)
  {
    var s := a + t;
    var p := |a|;
    assert s[p] == t[0] && s[p + 1] == t[1];
    RunEndShift(a, t, 2, Digits);
    var e := RunEnd(t, 2, Digits);
    assert s[p + e] == t[e];
    assert s[p + 2..p + e] == t[2..e];
  }

  /** …and for a hexadecimal one. */
  lemma HexNumShift(a: string, t: string)
    requires |t| > 3 && t[0] == '&' && t[1] == '#' && t[2] == 'x'
    ensures NumRefAt(a + t, |a|) == NumRefAt(t, 0)
  {
    var s := a + t;
    var p := |a|;
    assert s[p] == t[0] && s[p + 1] == t[1] && s[p + 2] == t[2];
    assert RunEnd(t, 2, Digits) == 2 && RunEnd(t, 2, Zeros) == 2;
    assert RunEnd(s, p + 2, Digits) == p + 2 && RunEnd(s, p + 2, Zeros) == p + 2;
    HexTailShift(a, t, 2);
    var h := RunEnd(t, 3, HexDigits);
    if h < |t| {
      assert s[p + h] == t[h];
    }
  }

  /** `&#` digits `;`, followed by anything. */
  lemma DecimalShape(ds: string, b: string, t: string)
    requires |ds| > 0 && AllIn(ds, Digits) && t == "&#" + ds + ";" + b
    ensures RefChars("&#" + ds + ";") && t[0] == '&' && t[1] == '#'
    ensures RunEnd(t, 2, Digits) == |ds| + 2 && t[|ds| + 2] == ';'
    ensures RefAt(t, 0) == Some(RefMatch(|ds| + 3, None))
    ensures NumRefAt(t, 0) == Some((|ds| + 3, Value(ds, 10)))
  {
    var r := "&#" + ds + ";";
    var e := 2 + |ds|;
    assert forall m :: 2 <= m < e ==> r[m] == ds[m - 2] && t[m] == r[m];
    assert r[e] == ';' && t[e] == ';' && t[0] == '&' && t[1] == '#';
    forall m | 0 <= m < |r| ensures r[m] != '\r' && (m > 0 ==> r[m] != '&') {
      if 2 <= m < e { assert InClass(ds[m - 2], Digits); }
    }
    assert RunEnd(t, 2, Digits) == e;
    assert t[2] != 'x' by { assert InClass(ds[0], Digits); }
    assert t[2..e] == ds;
  }

  /** `&#x` hex digits `;`, followed by anything. */
  lemma HexShape(hs: string, b: string, t: string)
    requires |hs| > 0 && AllIn(hs, HexDigits) && t == "&#x" + hs + ";" + b
    ensures RefChars("&#x" + hs + ";") && t[0] == '&' && t[1] == '#' && t[2] == 'x'
    ensures RefAt(t, 0) == Some(RefMatch(|hs| + 4, None))
    ensures NumRefAt(t, 0) == Some((|hs| + 4, Value(hs, 16)))
  {
    var r := "&#x" + hs + ";";
    var h := 3 + |hs|;
    assert forall m :: 3 <= m < h ==> r[m] == hs[m - 3] && t[m] == r[m];
    assert r[h] == ';' && t[h] == ';' && t[2] == 'x' && t[1] == '#' && t[0] == '&';
    forall m | 0 <= m < |r| ensures r[m] != '\r' && (m > 0 ==> r[m] != '&') {
      if 3 <= m < h { assert InClass(hs[m - 3], HexDigits); }
    }
    assert RunEnd(t, 3, HexDigits) == h;
    assert t[3..h] == hs;
    assert RunEnd(t, 2, Digits) == 2;
    assert RunEnd(t, 2, Zeros) == 2;
  }

  /** A reference to a well-formed name holds no `&` but its first one, and
      no CR. */
  lemma NameRefChars(n: string)
    requires IsName(n)
    ensures RefChars(Reference(n))
  {
    var r := Reference(n);
    forall m | 0 <= m < |r| ensures r[m] != '\r' && (m > 0 ==> r[m] != '&') {
      if 1 <= m <= |n| {
        assert r[m] == n[m - 1];
        assert InClass(n[m - 1], NameChars);
      }
    }
  }

  /** `&name;`, followed by anything. */
  lemma NameShape(n: string, b: string, t: string)
    requires IsName(n) && t == Reference(n) + b
    ensures RefAt(t, 0) == Some(RefMatch(|n| + 2, Some(n)))
  {
    var j := 1 + |n|;
    assert forall m :: 1 <= m < j ==> t[m] == n[m - 1];
    assert t[j] == ';' && t[0] == '&';
    assert RunEnd(t, 1, NameChars) == j;
    assert t[1..j] == n;
  }

  /** One numeric reference between plain texts: the scan finds it, and no
      name. */
  lemma NumScan(a: string, r: string, b: string, s: string)
    requires |r| > 0 && s == a + (r + b)
    requires forall m :: 0 <= m < |s| ==> m != |a| ==> s[m] != '&'
    requires RefAt(r + b, 0) == Some(RefMatch(|r|, None))
    ensures Scan(s, 0) == [None]
  {
    RefAtShift(a, r + b);
    ScanSkip(s, 0, |a|);
    ScanNoAmp(s, |a| + |r|);
  }

  /** The numeric pass on one numeric reference between plain texts. */
  lemma NumDecode(a: string, r: string, b: string, s: string, cp: nat)
    requires Plain(a) && Plain(b) && |r| > 0 && |s| == |a| + |r| + |b|
    requires s[..|a|] == a && s[|a| + |r|..] == b
    requires NumRefAt(s, |a|) == Some((|r|, cp))
    ensures DecodeNumeric(s, 0) ==
      if ToChar(cp).Success? then Success(a + ([ToChar(cp).value] + b)) else Failure(ToChar(cp).error)
  {
    if ToChar(cp).Success? {
      NumTail(s, |a|, |r|, cp, ToChar(cp).value, b);
      PrefixDecode(a, s, [ToChar(cp).value] + b);
    } else {
      NumStepFailure(s, |a|, |r|, cp);
      PrefixDecodeFailure(a, s, ToChar(cp).error);
    }
  }

  /** A numeric reference whose code point is a character becomes it. */
  lemma NumStep(s: string, p: nat, len: nat, cp: nat, c: char, t: string)
    requires p < |s| && NumRefAt(s, p) == Some((len, cp)) && ToChar(cp) == Success(c)
    requires DecodeNumeric(s, p + len) == Success(t)
    ensures DecodeNumeric(s, p) == Success([c] + t)
  {
  }

  /** A numeric reference whose code point is not a character stops the pass. */
  lemma NumStepFailure(s: string, p: nat, len: nat, cp: nat)
    requires p < |s| && NumRefAt(s, p) == Some((len, cp)) && ToChar(cp).Failure?
    ensures DecodeNumeric(s, p) == Failure(ToChar(cp).error)
  {
  }

  /** A numeric reference followed by plain text. */
  lemma NumTail(s: string, p: nat, len: nat, cp: nat, c: char, b: string)
    requires p < |s| && NumRefAt(s, p) == Some((len, cp)) && ToChar(cp) == Success(c)
    requires Plain(b) && s[p + len..] == b
    ensures DecodeNumeric(s, p) == Success([c] + b)
  {
    SuffixDecode(s, p + len, b);
    NumStep(s, p, len, cp, c, b);
  }

  /** A plain prefix passes the numeric decoding unchanged… */
  lemma PrefixDecode(a: string, s: string, t: string)
    requires Plain(a) && |a| <= |s| && s[..|a|] == a && DecodeNumeric(s, |a|) == Success(t)
    ensures DecodeNumeric(s, 0) == Success(a + t)
  {
    forall m | 0 <= m < |a| ensures s[m] != '&' {
      assert s[m] == a[m];
    }
    DecodeSkip(s, 0, |a|, t);
    assert s[0..|a|] == a;
  }

  /** …and does not prevent a later failure. */
  lemma PrefixDecodeFailure(a: string, s: string, err: DecodeError)
    requires Plain(a) && |a| <= |s| && s[..|a|] == a && DecodeNumeric(s, |a|) == Failure(err)
    ensures DecodeNumeric(s, 0) == Failure(err)
  {
    forall m | 0 <= m < |a| ensures s[m] != '&' {
      assert s[m] == a[m];
    }
    DecodeSkipFailure(s, 0, |a|, err);
  }

  /** A plain suffix is copied. */
  lemma SuffixDecode(s: string, q: nat, b: string)
    requires Plain(b) && q <= |s| && s[q..] == b
    ensures DecodeNumeric(s, q) == Success(b)
  {
    forall m | q <= m < |s| ensures s[m] != '&' {
      assert s[m] == b[m - q];
    }
    DecodeNoAmp(s, q);
  }

  /** One numeric reference `r` with code point `cp` between plain texts:
      the fast path is not taken, the reference becomes its character, and
      no name is left to look up. */
  lemma NumericInContext(a: string, r: string, b: string, cp: nat, filter: set<string>)
    requires Plain(a) && Plain(b) && RefChars(r)
    requires RefAt(r + b, 0) == Some(RefMatch(|r|, None)) && NumRefAt(a + r + b, |a|) == Some((|r|, cp))
    ensures UnnormalizeSpec(a + r + b, filter) ==
      if ToChar(cp).Success? then Success(a + [ToChar(cp).value] + b) else Failure(ToChar(cp).error)
  {
    var s := a + r + b;
    Around(a, r, b, s);
    assert NormalizeNewlines(s) == s;
    NumScan(a, r, b, s);
    NumDecode(a, r, b, s, cp);
    assert Names([None]) == [];
    if ToChar(cp).Success? {
      Assoc(a, [ToChar(cp).value], b);
    }
  }

  /** `&#NNN;` between plain texts becomes the character with code point NNN
      (leading zeros count for nothing), or the packing error for a code
      point that is not a character. */
  lemma DecimalReference(a: string, ds: string, b: string, filter: set<string>)
    requires Plain(a) && Plain(b) && |ds| > 0 && AllIn(ds, Digits)
    ensures var cp := Value(ds, 10);
      UnnormalizeSpec(a + ("&#" + ds + ";") + b, filter)
        == (if ToChar(cp).Success? then Success(a + [ToChar(cp).value] + b) else Failure(ToChar(cp).error))
  {
    var r := "&#" + ds + ";";
    DecimalShape(ds, b, r + b);
    DecimalNumShift(a, r + b);
    Assoc(a, r, b);
    NumericInContext(a, r, b, Value(ds, 10), filter);
  }

  /** `&#xHHH;` between plain texts becomes the character with code point
      HHH (hexadecimal, either case), or the packing error. */
  lemma HexReference(a: string, hs: string, b: string, filter: set<string>)
    requires Plain(a) && Plain(b) && |hs| > 0 && AllIn(hs, HexDigits)
    ensures var cp := Value(hs, 16);
      UnnormalizeSpec(a + ("&#x" + hs + ";") + b, filter)
        == (if ToChar(cp).Success? then Success(a + [ToChar(cp).value] + b) else Failure(ToChar(cp).error))
  {
    var r := "&#x" + hs + ";";
    HexShape(hs, b, r + b);
    HexNumShift(a, r + b);
    Assoc(a, r, b);
    NumericInContext(a, r, b, Value(hs, 16), filter);
  }

  /** A reference to a name other than `amp` does not begin with `&amp;`,
      whatever follows it. */
  lemma NotAmpPrefix(n: string, b: string)
    requires IsName(n) && n != "amp"
    ensures var u := Reference(n) + b; |u| >= 5 ==> u[..5] != "&amp;"
  {
    var r := Reference(n);
    var u := r + b;
    if |u| >= 5 {
      if |n| >= 4 {
        assert InClass(n[3], NameChars);
        assert u[..5][4] == r[4] == n[3];
      } else if |n| == 3 {
        assert u[1..4] == r[1..4] == n;
      } else {
        assert u[..5][|n| + 1] == r[|n| + 1] == ';';
      }
    }
  }

  /** After its opening `&`, a name reference followed by text without `&`
      holds no `&`. */
  lemma NameTail(n: string, b: string)
    requires IsName(n) && forall m :: 0 <= m < |b| ==> b[m] != '&'
    ensures var w := (Reference(n) + b)[1..]; forall m :: 0 <= m < |w| ==> w[m] != '&'
  {
    var r := Reference(n);
    var w := (r + b)[1..];
    NameRefChars(n);
    assert w == r[1..] + b;
    forall m | 0 <= m < |w| ensures w[m] != '&' {
      if m < |r| - 1 {
        assert w[m] == r[m + 1];
      } else {
        assert w[m] == b[m - |r| + 1];
      }
    }
  }

  /** Text whose only `&` is the first character, and does not begin with
      `&amp;`, has nothing for the `&amp;` pass. */
  lemma AmpPassHead(u: string)
    requires |u| > 0 && (|u| >= 5 ==> u[..5] != "&amp;")
    requires forall m :: 0 <= m < |u[1..]| ==> u[1..][m] != '&'
    ensures ReplaceAll(u, "&amp;", "&") == u
  {
    if |u| >= 5 {
      ReplaceAllAbsent(u[1..], "&amp;", "&");
      assert [u[0]] + u[1..] == u;
    }
  }

  /** A name reference other than `&amp;`, followed by text without `&`,
      holds no `&amp;`. */
  lemma NotAmp(n: string, b: string)
    requires IsName(n) && n != "amp" && forall m :: 0 <= m < |b| ==> b[m] != '&'
    ensures ReplaceAll(Reference(n) + b, "&amp;", "&") == Reference(n) + b
  {
    NotAmpPrefix(n, b);
    NameTail(n, b);
    AmpPassHead(Reference(n) + b);
  }

  /** The two name loops and the `&amp;` pass for one name reference at `|a|`
      of `s`, between plain texts. */
  lemma NamePasses(a: string, n: string, b: string, s: string, filter: set<string>)
    requires Plain(a) && Plain(b) && IsName(n) && s == a + (Reference(n) + b)
    ensures ReplaceAll(ApplyDefaults(ApplyEntities(s, [n], filter), [n], filter), "&amp;", "&") ==
      if n == "amp" then a + ("&" + b)
      else if n !in filter && DefaultEntity(n).Some? then a + ([DefaultEntity(n).value] + b)
      else s
  {
    if n == "amp" {
      AmpNamePass(a, b, s, filter);
    } else if n !in filter && DefaultEntity(n).Some? {
      DefaultNamePass(a, n, b, s, filter);
    } else {
      LiteralNamePass(a, n, b, s, filter);
    }
  }

  /** `&amp;` is left to the final pass, which turns it into `&`. */
  lemma AmpNamePass(a: string, b: string, s: string, filter: set<string>)
    requires Plain(a) && Plain(b) && s == a + (Reference("amp") + b)
    ensures ReplaceAll(ApplyDefaults(ApplyEntities(s, ["amp"], filter), ["amp"], filter), "&amp;", "&") == a + ("&" + b)
  {
    var R := Reference("amp");
    assert ApplyEntities(s, ["amp"], filter) == s;
    assert ApplyDefaults(s, ["amp"], filter) == s;
    ReplaceAllSkip(a, R + b, "&amp;", "&");
    ReplaceAllHead(b, "&amp;", "&");
    ReplaceAllAbsent(b, "&amp;", "&");
  }

  /** An unfiltered default entity is replaced by its character in the
      first loop, and nothing is left for the second loop or the final pass. */
  lemma DefaultNamePass(a: string, n: string, b: string, s: string, filter: set<string>)
    requires Plain(a) && Plain(b) && IsName(n) && s == a + (Reference(n) + b)
    requires n !in filter && DefaultEntity(n).Some?
    ensures ReplaceAll(ApplyDefaults(ApplyEntities(s, [n], filter), [n], filter), "&amp;", "&") ==
      a + ([DefaultEntity(n).value] + b)
  {
    var R := Reference(n);
    var c := DefaultEntity(n).value;
    var x := a + ([c] + b);
    ReplaceAllSkip(a, R + b, R, [c]);
    ReplaceAllHead(b, R, [c]);
    ReplaceAllAbsent(b, R, [c]);
    assert ApplyEntities(s, [n], filter) == x;
    assert forall m :: 0 <= m < |x| ==> x[m] != '&' by {
      assert forall m :: |a| < m < |x| ==> x[m] == b[m - |a| - 1];
      assert c != '&';
    }
    ReplaceAllAbsent(x, R, [c]);
    assert ApplyDefaults(x, [n], filter) == x;
    ReplaceAllAbsent(x, "&amp;", "&");
  }

  /** Any other name, and a filtered one, passes all three steps unchanged. */
  lemma LiteralNamePass(a: string, n: string, b: string, s: string, filter: set<string>)
    requires Plain(a) && Plain(b) && IsName(n) && s == a + (Reference(n) + b)
    requires n != "amp" && (n in filter || DefaultEntity(n).None?)
    ensures ReplaceAll(ApplyDefaults(ApplyEntities(s, [n], filter), [n], filter), "&amp;", "&") == s
  {
    var R := Reference(n);
    assert ApplyEntities(s, [n], filter) == s;
    assert ApplyDefaults(s, [n], filter) == s;
    ReplaceAllSkip(a, R + b, "&amp;", "&");
    NotAmp(n, b);
  }

  /** One name reference between plain texts: the scan finds just its name. */
  lemma NameScan(a: string, n: string, b: string, s: string)
    requires IsName(n) && s == a + (Reference(n) + b)
    requires forall m :: 0 <= m < |s| ==> s[m] != '\r' && (m != |a| ==> s[m] != '&')
    ensures Scan(s, 0) == [Some(n)]
  {
    var p := |a|;
    NameShape(n, b, Reference(n) + b);
    RefAtShift(a, Reference(n) + b);
    ScanSkip(s, 0, p);
    ScanNoAmp(s, p + |n| + 2);
  }

  /** The numeric pass leaves a text with one name reference alone. */
  lemma NameDecode(a: string, n: string, b: string, s: string)
    requires IsName(n) && s == a + (Reference(n) + b)
    requires forall m :: 0 <= m < |s| ==> m != |a| ==> s[m] != '&'
    ensures DecodeNumeric(s, 0) == Success(s)
  {
    var p := |a|;
    assert s[p] == '&' && s[p + 1] == n[0];
    DecodeNoAmp(s, p + 1);
    assert s[p..] == [s[p]] + s[p + 1..];
    DecodeSkip(s, 0, p, s[p..]);
    assert s[0..p] + s[p..] == s;
  }

  /** One name reference between plain texts: the scan finds just its name,
      and the numeric pass leaves the whole text alone. */
  lemma NameScanned(a: string, n: string, b: string, s: string)
    requires Plain(a) && Plain(b) && IsName(n) && s == a + Reference(n) + b
    ensures NormalizeNewlines(s) == s && Scan(s, 0) == [Some(n)] && DecodeNumeric(s, 0) == Success(s)
    ensures s == a + (Reference(n) + b)
  {
    NameRefChars(n);
    Around(a, Reference(n), b, s);
    NameScan(a, n, b, s);
    NameDecode(a, n, b, s);
  }

  /** `&name;` between plain texts, for a well-formed name: `&amp;` becomes
      `&`; `gt`, `lt`, `quot`, `apos` become their character unless
      filtered; every other name (such as `nbsp`) and every filtered one
      stays literal. */
  lemma NamedReference(a: string, n: string, b: string, filter: set<string>)
    requires Plain(a) && Plain(b) && IsName(n)
    ensures UnnormalizeSpec(a + Reference(n) + b, filter) ==
      if n == "amp" then Success(a + "&" + b)
      else if n !in filter && DefaultEntity(n).Some? then Success(a + [DefaultEntity(n).value] + b)
      else Success(a + Reference(n) + b)
  {
    var s := a + Reference(n) + b;
    NameScanned(a, n, b, s);
    assert Names([Some(n)]) == [n];
    NamePasses(a, n, b, s, filter);
    if n == "amp" {
      Assoc(a, "&", b);
    } else if n !in filter && DefaultEntity(n).Some? {
      Assoc(a, [DefaultEntity(n).value], b);
    }
  }

  // ----- a numeric reference followed by `&amp;` -----

  lemma Assoc5(a: string, r: string, m: string, b: string)
    ensures a + r + m + "&amp;" + b == a + (r + (m + ("&amp;" + b)))
    ensures a + r + m + "&amp;" + b == (a + r + m) + ("&amp;" + b)
  {
    Assoc(m, "&amp;", b);
    Assoc(r, m, "&amp;" + b);
    Assoc(a, r, m + ("&amp;" + b));
    Assoc(a + r, m, "&amp;" + b);
  }

  /** The text `a`, reference `r`, `m`, `&amp;`, `b` with plain `a`, `m`
      and `b`: its two `&`s are where `r` and `&amp;` start. */
  lemma TwoAround(a: string, r: string, m: string, b: string, s: string)
    requires Plain(a) && Plain(m) && Plain(b) && RefChars(r)
    requires s == a + r + m + "&amp;" + b
    ensures forall k :: 0 <= k < |s| ==>
      s[k] != '\r' && (k != |a| && k != |a| + |r| + |m| ==> s[k] != '&')
    ensures s[..|a|] == a && s[|a| + |r|..] == m + ("&amp;" + b)
  {
    var p := |a|;
    var q := p + |r|;
    var p2 := q + |m|;
    forall k | 0 <= k < |s| ensures s[k] != '\r' && (k != p && k != p2 ==> s[k] != '&') {
      if k < p {
        assert s[k] == a[k];
      } else if k < q {
        assert s[k] == r[k - p];
      } else if k < p2 {
        assert s[k] == m[k - q];
      } else if k < p2 + 5 {
        assert s[k] == "&amp;"[k - p2];
      } else {
        assert s[k] == b[k - p2 - 5];
      }
    }
    Assoc5(a, r, m, b);
  }

  lemma AmpIsName()
    ensures IsName("amp") && Entity("amp").None? && DefaultEntity("amp").None?
  {
    assert NameStart('a') && InClass('m', NameChars) && InClass('p', NameChars);
  }

  /** The two references are found where they start. */
  lemma TwoRefAt(a: string, r: string, m: string, b: string, s: string)
    requires |r| > 0
    requires s == a + (r + (m + ("&amp;" + b))) && s == (a + r + m) + ("&amp;" + b)
    requires RefAt(r + (m + ("&amp;" + b)), 0) == Some(RefMatch(|r|, None))
    ensures RefAt(s, |a|) == Some(RefMatch(|r|, None))
    ensures RefAt(s, |a| + |r| + |m|) == Some(RefMatch(5, Some("amp")))
  {
    AmpIsName();
    RefAtShift(a, r + (m + ("&amp;" + b)));
    NameShape("amp", b, "&amp;" + b);
    assert Reference("amp") == "&amp;";
    RefAtShift(a + r + m, "&amp;" + b);
  }

  /** From the end of the numeric reference on, the scan finds `amp` only. */
  lemma AmpScan(s: string, q: nat, p2: nat)
    requires q <= p2 && p2 + 5 <= |s|
    requires forall k :: q <= k < |s| && k != p2 ==> s[k] != '&'
    requires RefAt(s, p2) == Some(RefMatch(5, Some("amp")))
    ensures Scan(s, q) == [Some("amp")]
  {
    ScanSkip(s, q, p2);
    ScanNoAmp(s, p2 + 5);
  }

  /** The scan finds the numeric reference and then `amp`. */
  lemma TwoScan(a: string, r: string, m: string, b: string, s: string)
    requires |r| > 0 && |a| + |r| + |m| + 5 <= |s|
    requires forall k :: 0 <= k < |s| ==> k != |a| && k != |a| + |r| + |m| ==> s[k] != '&'
    requires RefAt(s, |a|) == Some(RefMatch(|r|, None))
    requires RefAt(s, |a| + |r| + |m|) == Some(RefMatch(5, Some("amp")))
    ensures Scan(s, 0) == [None, Some("amp")]
  {
    AmpScan(s, |a| + |r|, |a| + |r| + |m|);
    ScanSkip(s, 0, |a|);
  }

  /** From the end of the numeric reference on, the numeric pass copies:
      the `&` of `&amp;` starts no numeric reference. */
  lemma TailDecode(s: string, q: nat, m: string, b: string)
    requires Plain(m) && Plain(b) && q <= |s| && s[q..] == m + ("&amp;" + b)
    ensures DecodeNumeric(s, q) == Success(m + ("&amp;" + b))
  {
    var p2 := q + |m|;
    assert s[p2 + 1] == 'a';
    assert s[p2 + 1..] == "amp;" + b;
    forall k | p2 + 1 <= k < |s| ensures s[k] != '&' {
      if k < p2 + 5 {
        assert s[k] == "amp;"[k - p2 - 1];
      } else {
        assert s[k] == b[k - p2 - 5];
      }
    }
    DecodeNoAmp(s, p2 + 1);
    assert s[p2..] == [s[p2]] + s[p2 + 1..];
    assert DecodeNumeric(s, p2) == Success(s[p2..]);
    forall k | q <= k < p2 ensures s[k] != '&' {
      assert s[k] == m[k - q];
    }
    DecodeSkip(s, q, p2, s[p2..]);
    assert s[q..p2] + s[p2..] == s[q..];
  }

  /** The numeric pass decodes the reference and leaves `&amp;` alone. */
  lemma TwoDecode(a: string, r: string, m: string, b: string, s: string, cp: nat, c: char)
    requires Plain(a) && Plain(m) && Plain(b)
    requires |s| == |a| + |r| + |m| + 5 + |b| && |r| > 0
    requires s[..|a|] == a && s[|a| + |r|..] == m + ("&amp;" + b)
    requires NumRefAt(s, |a|) == Some((|r|, cp)) && ToChar(cp) == Success(c)
    ensures DecodeNumeric(s, 0) == Success(a + ([c] + (m + ("&amp;" + b))))
  {
    TwoTail(s, |a|, |r|, cp, c, m, b);
    PrefixDecode(a, s, [c] + (m + ("&amp;" + b)));
  }

  lemma TwoTail(s: string, p: nat, len: nat, cp: nat, c: char, m: string, b: string)
    requires p < |s| && NumRefAt(s, p) == Some((len, cp)) && ToChar(cp) == Success(c)
    requires Plain(m) && Plain(b) && s[p + len..] == m + ("&amp;" + b)
    ensures DecodeNumeric(s, p) == Success([c] + (m + ("&amp;" + b)))
  {
    TailDecode(s, p + len, m, b);
    NumStep(s, p, len, cp, c, m + ("&amp;" + b));
  }

  /** The final `&amp;` pass on plain text, `&amp;`, plain text. */
  lemma AmpPass(x: string, b: string, rv: string)
    requires (forall k :: 0 <= k < |x| ==> x[k] != '&') && Plain(b)
    requires rv == x + ("&amp;" + b)
    ensures ReplaceAll(rv, "&amp;", "&") == x + "&" + b
  {
    ReplaceAllSkip(x, "&amp;" + b, "&amp;", "&");
    ReplaceAllHead(b, "&amp;", "&");
    ReplaceAllAbsent(b, "&amp;", "&");
    Assoc(x, "&", b);
  }

  /** The decoded text before `&amp;` holds no `&`. */
  lemma DecodedPrefix(a: string, c: char, m: string, b: string, rv: string)
    requires Plain(a) && Plain(m) && c != '&' && rv == a + ([c] + (m + ("&amp;" + b)))
    ensures (forall k :: 0 <= k < |a + [c] + m| ==> (a + [c] + m)[k] != '&')
    ensures rv == (a + [c] + m) + ("&amp;" + b)
  {
    Assoc(a, [c], m + ("&amp;" + b));
    Assoc(a + [c], m, "&amp;" + b);
  }

  /** With `amp` the only name, the two name loops change nothing. */
  lemma AmpNamePasses(rv: string, filter: set<string>)
    ensures Names([None, Some("amp")]) == ["amp"]
    ensures ApplyDefaults(ApplyEntities(rv, ["amp"], filter), ["amp"], filter) == rv
  {
    AmpIsName();
  }

  lemma TwoInContext(a: string, r: string, m: string, b: string, cp: nat, c: char, filter: set<string>)
    requires Plain(a) && Plain(m) && Plain(b) && RefChars(r)
    requires RefAt(r + (m + ("&amp;" + b)), 0) == Some(RefMatch(|r|, None))
    requires NumRefAt(a + r + m + "&amp;" + b, |a|) == Some((|r|, cp))
    requires ToChar(cp) == Success(c) && c != '&'
    ensures UnnormalizeSpec(a + r + m + "&amp;" + b, filter) == Success(a + [c] + m + "&" + b)
  {
    var s := a + r + m + "&amp;" + b;
    Assoc5(a, r, m, b);
    TwoAround(a, r, m, b, s);
    assert NormalizeNewlines(s) == s;
    TwoRefAt(a, r, m, b, s);
    TwoScan(a, r, m, b, s);
    TwoDecode(a, r, m, b, s, cp, c);
    var rv1 := a + ([c] + (m + ("&amp;" + b)));
    AmpNamePasses(rv1, filter);
    DecodedPrefix(a, c, m, b, rv1);
    AmpPass(a + [c] + m, b, rv1);
  }

  /** A numeric reference and a later `&amp;` between plain texts: the
      character is decoded first and `&amp;` last, each exactly once. */
  lemma NumericThenAmp(a: string, ds: string, m: string, b: string, c: char, filter: set<string>)
    requires Plain(a) && Plain(m) && Plain(b) && |ds| > 0 && AllIn(ds, Digits)
    requires ToChar(Value(ds, 10)) == Success(c) && c != '&'
    ensures UnnormalizeSpec(a + ("&#" + ds + ";") + m + "&amp;" + b, filter) == Success(a + [c] + m + "&" + b)
  {
    var r := "&#" + ds + ";";
    var t := m + ("&amp;" + b);
    DecimalShape(ds, t, r + t);
    DecimalNumShift(a, r + t);
    Assoc5(a, r, m, b);
    TwoInContext(a, r, m, b, Value(ds, 10), c, filter);
  }

  lemma CafeParts()
    ensures Plain("Caf") && Plain(" ") && Plain(" Bar") && AllIn("233", Digits)
    ensures ToChar(Value("233", 10)) == Success('é')
    ensures "Caf&#233; &amp; Bar" == "Caf" + ("&#" + "233" + ";") + " " + "&amp;" + " Bar"
    ensures "Caf" + ['é'] + " " + "&" + " Bar" == "Café & Bar"
  {
    assert Value("233", 10) == 233 by {
      assert "233"[..2] == "23" && "23"[..1] == "2" && "2"[..0] == "";
    }
    assert InClass('2', Digits) && InClass('3', Digits);
  }

  /** `Caf&#233; &amp; Bar` reads as `Café & Bar`. */
  lemma CafeExample()
    ensures UnnormalizeSpec("Caf&#233; &amp; Bar", {}) == Success("Café & Bar")
  {
    CafeParts();
    NumericThenAmp("Caf", "233", " ", " Bar", 'é', {});
  }

  /** `&amp;` is decoded last, after every other reference, so the `&` it
      yields never starts a new reference: `&amp;lt;` gives `&lt;`. */
  lemma AmpDecodedLast(t: string, filter: set<string>)
    requires forall i :: 0 <= i < |t| ==> t[i] != '&' && t[i] != '\r'
    ensures UnnormalizeSpec("&amp;" + t, filter) == Success("&" + t)
  {
    var s := "&amp;" + t;
    assert forall m :: 5 <= m < |s| ==> s[m] == t[m - 5];
    assert forall m :: 0 <= m < |s| ==> s[m] != '\r';
    assert RunEnd(s, 1, NameChars) == 4 by {
      var k := RunEnd(s, 1, NameChars);
      assert s[1] == 'a' && s[2] == 'm' && s[3] == 'p' && s[4] == ';';
    }
    assert s[1..4] == "amp";
    assert RefAt(s, 0) == Some(RefMatch(5, Some("amp")));
    ScanNoAmp(s, 5);
    assert Scan(s, 0) == [Some("amp")];
    DecodeNoAmp(s, 1);
    assert [s[0]] + s[1..] == s;
    assert DecodeNumeric(s, 0) == Success(s);
    assert Names([Some("amp")]) == ["amp"];
    assert ApplyDefaults(ApplyEntities(s, ["amp"], filter), ["amp"], filter) == s;
    assert s[..5] == "&amp;" && s[5..] == t;
    ReplaceAllAbsent(t, "&amp;", "&");
  }

  lemma AmpLtExample(t: string)
    requires t == "lt;"
    ensures UnnormalizeSpec("&amp;" + t, {}) == Success("&" + t)
  {
    AmpDecodedLast(t, {});
  }
}
