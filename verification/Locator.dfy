/** Record locators: printing, parsing and resolving JSON Pointers (sections 3 and 4 of RFC 6901). */
module Locator {
  import opened Basics

  /** A parsed document; the keys of an object are texts and keep their order. */
  datatype Json = Scalar(text: string) | Arr(items: seq<Json>) | Obj(fields: seq<Field>)
  datatype Field = Field(key: string, value: Json)

  predicate UniqueKeys(fields: seq<Field>) {
    forall i, j :: 0 <= i < j < |fields| ==> fields[i].key != fields[j].key
  }

  predicate WellKeyed(doc: Json) {
    match doc
    case Scalar(_) => true
    case Arr(items) => forall x <- items :: WellKeyed(x)
    case Obj(fields) => UniqueKeys(fields) && forall f <- fields :: WellKeyed(f.value)
  }

  function Find(fields: seq<Field>, key: string): Option<Json> {
    if fields == [] then None
    else if fields[0].key == key then Some(fields[0].value)
    else Find(fields[1..], key)
  }

  lemma {:induction false} FindField(fields: seq<Field>, i: nat)
    requires UniqueKeys(fields) && i < |fields|
    ensures Find(fields, fields[i].key) == Some(fields[i].value)
  {
    if i > 0 {
      FindField(fields[1..], i - 1);
    }
  }

  // ---- Escaping ----

  /** s.replace(c, r). */
  function ReplaceChar(s: string, c: char, r: string): string {
    if s == "" then "" else (if s[0] == c then r else [s[0]]) + ReplaceChar(s[1..], c, r)
  }

  /** s.replace(ab, r) for a two-character pattern, left to right without overlaps. */
  function ReplacePair(s: string, a: char, b: char, r: char): string {
    if s == "" then ""
    else if |s| >= 2 && s[0] == a && s[1] == b then [r] + ReplacePair(s[2..], a, b, r)
    else [s[0]] + ReplacePair(s[1..], a, b, r)
  }

  function Encode(s: string): string {
    ReplaceChar(ReplaceChar(s, '~', "~0"), '/', "~1")
  }

  function Decode(s: string): string {
    ReplacePair(ReplacePair(s, '~', '1', '/'), '~', '0', '~')
  }

  function EncodeChar(c: char): string {
    if c == '~' then "~0" else if c == '/' then "~1" else [c]
  }

  lemma ReplaceCharAppend(s: string, t: string, c: char, r: string)
    ensures ReplaceChar(s + t, c, r) == ReplaceChar(s, c, r) + ReplaceChar(t, c, r)
  {
    if s == "" {
      assert s + t == t;
    } else {
      assert (s + t)[1..] == s[1..] + t;
      ReplaceCharAppend(s[1..], t, c, r);
    }
  }

  /** Encoding works character by character. */
  lemma EncodeHead(s: string)
    requires s != ""
    ensures Encode(s) == EncodeChar(s[0]) + Encode(s[1..])
  {
    var head := if s[0] == '~' then "~0" else [s[0]];
    ReplaceCharAppend(head, ReplaceChar(s[1..], '~', "~0"), '/', "~1");
    assert ReplaceChar(head, '/', "~1") == EncodeChar(s[0]) by {
      assert head[1..] == if s[0] == '~' then "0" else "";
      if s[0] == '~' {
        assert "0"[1..] == "";
        assert ReplaceChar("0", '/', "~1") == "0";
      }
    }
  }

  lemma {:induction false} PairHit(a: char, b: char, r: char, rest: string)
    ensures ReplacePair([a, b] + rest, a, b, r) == [r] + ReplacePair(rest, a, b, r)
  {
    assert ([a, b] + rest)[2..] == rest;
  }

  lemma {:induction false} PairMiss(c: char, a: char, b: char, r: char, rest: string)
    requires c != a || rest == "" || rest[0] != b
    ensures ReplacePair([c] + rest, a, b, r) == [c] + ReplacePair(rest, a, b, r)
  {
    assert ([c] + rest)[1..] == rest;
  }

  lemma {:induction false} SlashStep(c: char, rest: string)
    ensures ReplacePair(EncodeChar(c) + rest, '~', '1', '/') == (if c == '~' then "~0" else [c]) + ReplacePair(rest, '~', '1', '/')
  {
    if c == '~' {
      PairMiss('~', '~', '1', '/', "0" + rest);
      PairMiss('0', '~', '1', '/', rest);
      assert "~0" + rest == ['~'] + ("0" + rest) && "0" + rest == ['0'] + rest;
      assert ['~'] + (['0'] + ReplacePair(rest, '~', '1', '/')) == "~0" + ReplacePair(rest, '~', '1', '/');
    } else if c == '/' {
      PairHit('~', '1', '/', rest);
    } else {
      PairMiss(c, '~', '1', '/', rest);
    }
  }

  lemma {:induction false} DecodeSlashes(s: string)
    ensures ReplacePair(Encode(s), '~', '1', '/') == ReplaceChar(s, '~', "~0")
  {
    if s != "" {
      EncodeHead(s);
      SlashStep(s[0], Encode(s[1..]));
      DecodeSlashes(s[1..]);
    }
  }

  lemma {:induction false} DecodeTildes(s: string)
    ensures ReplacePair(ReplaceChar(s, '~', "~0"), '~', '0', '~') == s
  {
    if s != "" {
      var rest := ReplaceChar(s[1..], '~', "~0");
      DecodeTildes(s[1..]);
      if s[0] == '~' {
        assert ("~0" + rest)[2..] == rest;
      } else {
        assert ([s[0]] + rest)[1..] == rest;
      }
      assert s == [s[0]] + s[1..];
    }
  }

  /** Decoding undoes encoding on every text. */
  lemma DecodeEncode(s: string)
    ensures Decode(Encode(s)) == s
  {
    DecodeSlashes(s);
    DecodeTildes(s);
  }

  lemma {:induction false} EncodeHasNoSlash(s: string)
    ensures '/' !in Encode(s)
  {
    if s != "" {
      EncodeHead(s);
      EncodeHasNoSlash(s[1..]);
    }
  }

  // ---- Printing and splitting ----

  function Join(parts: seq<string>): string {
    if parts == [] then ""
    else if |parts| == 1 then parts[0]
    else parts[0] + "/" + Join(parts[1..])
  }

  function EncodeAll(segments: seq<string>): seq<string> {
    seq(|segments|, i requires 0 <= i < |segments| => Encode(segments[i]))
  }

  function DecodeAll(parts: seq<string>): seq<string> {
    seq(|parts|, i requires 0 <= i < |parts| => Decode(parts[i]))
  }

  function Pointer(segments: seq<string>): string {
    "/" + Join(EncodeAll(segments))
  }

  /** text.split("/"): the field up to the first slash, then the rest. */
  function Split(text: string): (parts: seq<string>)
    ensures parts != []
  {
    if text == "" then [""]
    else
      var rest := Split(text[1..]);
      if text[0] == '/' then [""] + rest else [[text[0]] + rest[0]] + rest[1..]
  }

  lemma {:induction false} SplitField(part: string, rest: string)
    requires '/' !in part
    ensures Split(part + "/" + rest) == [part] + Split(rest)
    ensures Split(part) == [part]
  {
    if part == "" {
      assert part + "/" + rest == "/" + rest && ("/" + rest)[1..] == rest;
    } else {
      SplitField(part[1..], rest);
      assert (part + "/" + rest)[1..] == part[1..] + "/" + rest;
      assert part == [part[0]] + part[1..];
    }
  }

  lemma {:induction false} SplitJoin(parts: seq<string>)
    requires parts != [] && forall p <- parts :: '/' !in p
    ensures Split(Join(parts)) == parts
  {
    if |parts| == 1 {
      SplitField(parts[0], "");
    } else {
      SplitJoin(parts[1..]);
      SplitField(parts[0], Join(parts[1..]));
      assert parts == [parts[0]] + parts[1..];
    }
  }

  /** The segments a resolver reads from a printed pointer are the ones that were printed. */
  lemma PointerRoundTrip(segments: seq<string>)
    requires segments != []
    ensures Pointer(segments)[0] == '/'
    ensures DecodeAll(Split(Pointer(segments)[1..])) == segments
  {
    var parts := EncodeAll(segments);
    forall p <- parts ensures '/' !in p {
      var i :| 0 <= i < |parts| && parts[i] == p;
      EncodeHasNoSlash(segments[i]);
    }
    SplitJoin(parts);
    assert Pointer(segments)[1..] == Join(parts);
    forall i | 0 <= i < |segments| ensures DecodeAll(parts)[i] == segments[i] {
      DecodeEncode(segments[i]);
    }
  }

  lemma PointerInjective(a: seq<string>, b: seq<string>)
    requires a != [] && b != [] && Pointer(a) == Pointer(b)
    ensures a == b
  {
    PointerRoundTrip(a);
    PointerRoundTrip(b);
  }

  /** The empty segment list prints like the list of one empty segment. */
  lemma EmptyListCollides()
    ensures Pointer([]) == Pointer([""])
  {
    assert EncodeAll([""]) == [""];
  }

  // ---- Decimal indexes ----

  predicate IsDigit(c: char) {
    '0' <= c <= '9'
  }

  function Digit(d: nat): char
    requires d < 10
  {
    ('0' as int + d) as char
  }

  function Decimal(n: nat): string {
    if n < 10 then [Digit(n)] else Decimal(n / 10) + [Digit(n % 10)]
  }

  /** Digits with single underscores between them. */
  function ParseDigits(s: string, value: nat, afterDigit: bool): Option<nat> {
    if s == "" then if afterDigit then Some(value) else None
    else if IsDigit(s[0]) then ParseDigits(s[1..], 10 * value + (s[0] as int - '0' as int), true)
    else if s[0] == '_' && afterDigit then ParseDigits(s[1..], value, false)
    else None
  }

  /** What may follow a digit in a numeral: digits, with at most one underscore in front of each. */
  predicate IsTail(s: string) {
    && (s != "" ==> IsDigit(s[|s| - 1]))
    && (forall i :: 0 <= i < |s| ==> IsDigit(s[i]) || s[i] == '_')
    && forall i, j :: 0 <= i < |s| && 0 <= j < |s| && s[i] == '_' && s[j] == '_' ==> i + 1 != j
  }

  /** Digits with at most one underscore between two of them. */
  predicate IsNumeral(s: string) {
    s != "" && IsDigit(s[0]) && IsTail(s)
  }

  lemma {:induction false} ParseDigitsExactly(s: string, value: nat, afterDigit: bool)
    ensures ParseDigits(s, value, afterDigit).Some? <==> if afterDigit then IsTail(s) else IsNumeral(s)
  {
    if s != "" {
      var rest := s[1..];
      assert s == [s[0]] + rest;
      TailStep(s[0], rest);
      if IsDigit(s[0]) {
        ParseDigitsExactly(rest, 10 * value + (s[0] as int - '0' as int), true);
      } else if s[0] == '_' && afterDigit {
        ParseDigitsExactly(rest, value, false);
      }
    }
  }

  lemma TailStep(c: char, rest: string)
    ensures IsTail([c] + rest) <==> if IsDigit(c) then IsTail(rest) else c == '_' && IsNumeral(rest)
  {
    var s := [c] + rest;
    assert s[0] == c && |s| == |rest| + 1;
    forall i | 0 <= i < |rest| ensures s[i + 1] == rest[i] {}
    forall i | 0 < i < |s| ensures s[i] == rest[i - 1] {}
  }

  /** int(text) on ASCII text. */
  function ParseInt(text: string): Option<int> {
    var s := Strip(text);
    var signed := s != "" && (s[0] == '+' || s[0] == '-');
    var magnitude := ParseDigits(if signed then s[1..] else s, 0, false);
    if magnitude.None? then None
    else
      var value: int := magnitude.value;
      Some(if signed && s[0] == '-' then -value else value)
  }

  /** A text is an integer exactly if it is, between white space, a numeral with at most one sign; only a minus makes it negative. */
  lemma ParseIntExactly(text: string)
    ensures var s := Strip(text);
            var signed := s != "" && (s[0] == '+' || s[0] == '-');
            && (ParseInt(text).Some? <==> IsNumeral(if signed then s[1..] else s))
            && (ParseInt(text).Some? && ParseInt(text).value < 0 ==> s[0] == '-')
            && (ParseInt(text).Some? && ParseInt(text).value > 0 ==> s[0] != '-')
  {
    var s := Strip(text);
    ParseDigitsExactly(if s != "" && (s[0] == '+' || s[0] == '-') then s[1..] else s, 0, false);
  }

  /** text.isdigit() on ASCII text. */
  predicate AllDigits(text: string) {
    text != "" && forall c <- text :: IsDigit(c)
  }

  lemma {:induction false} ParseDecimal(n: nat, tail: string)
    ensures ParseDigits(Decimal(n) + tail, 0, false) == ParseDigits(tail, n, true)
    ensures AllDigits(Decimal(n))
  {
    if n < 10 {
      assert (Decimal(n) + tail)[1..] == tail;
    } else {
      var last := [Digit(n % 10)] + tail;
      ParseDecimal(n / 10, last);
      assert Decimal(n) + tail == Decimal(n / 10) + last;
      assert last[1..] == tail;
    }
  }

  lemma ParseIntDecimal(n: nat)
    ensures ParseInt(Decimal(n)) == Some(n) && AllDigits(Decimal(n))
  {
    ParseDecimal(n, "");
    var s := Decimal(n);
    assert s + "" == s;
    assert IsDigit(s[0]) && IsDigit(s[|s| - 1]);
  }

  lemma {:induction false} DigitsParse(s: string, value: nat, after: bool)
    requires AllDigits(s)
    ensures ParseDigits(s, value, after).Some?
  {
    assert IsDigit(s[0]) by { assert s[0] in s; }
    if |s| > 1 {
      DigitsParse(s[1..], 10 * value + (s[0] as int - '0' as int), true);
    } else {
      assert s[1..] == "";
    }
  }

  /** Where both notions of index apply they agree: a digit text is a non-negative integer text. */
  lemma DigitsAreIntegers(s: string)
    requires AllDigits(s)
    ensures ParseInt(s).Some? && ParseInt(s).value >= 0
  {
    DigitsParse(s, 0, false);
    assert s[0] in s && s[|s| - 1] in s;
  }

  // ---- The two resolvers ----

  datatype Resolution = InvalidSelector | Missing | Found(value: Json)

  function ResolveParts(current: Json, parts: seq<string>): Resolution
    decreases |parts|
  {
    if parts == [] then Found(current)
    else
      var part := Decode(parts[0]);
      match current
      case Scalar(_) => Missing
      case Obj(fields) =>
        if Find(fields, part).None? then Missing else ResolveParts(Find(fields, part).value, parts[1..])
      case Arr(items) =>
        var index := ParseInt(part);
        if index.None? then InvalidSelector
        else if index.value < 0 || index.value >= |items| then Missing
        else ResolveParts(items[index.value], parts[1..])
  }

  function ResolveSelector(doc: Json, selector: string): Resolution {
    if selector == "" || selector[0] != '/' then InvalidSelector
    else ResolveParts(doc, Split(selector[1..]))
  }

  predicate PartsExist(current: Json, parts: seq<string>)
    decreases |parts|
  {
    parts == [] ||
    (var part := Decode(parts[0]);
     match current
     case Scalar(_) => false
     case Obj(fields) => Find(fields, part).Some? && PartsExist(Find(fields, part).value, parts[1..])
     case Arr(items) =>
       && AllDigits(part) && ParseInt(part).Some? && 0 <= ParseInt(part).value < |items|
       && PartsExist(items[ParseInt(part).value], parts[1..]))
  }

  /** The source-anchor resolver, which only answers whether the pointer exists. */
  predicate PointerExists(doc: Json, pointer: string) {
    pointer == "" || (pointer[0] == '/' && PartsExist(doc, Split(pointer[1..])))
  }

  /** Along the walk, an array is only ever indexed by a plain digit text when the text is a usable integer. */
  predicate PlainIndexes(current: Json, parts: seq<string>)
    decreases |parts|
  {
    parts == [] ||
    (var part := Decode(parts[0]);
     match current
     case Scalar(_) => true
     case Obj(fields) => Find(fields, part).Some? ==> PlainIndexes(Find(fields, part).value, parts[1..])
     case Arr(items) =>
       ParseInt(part).Some? && 0 <= ParseInt(part).value < |items| ==>
         AllDigits(part) && PlainIndexes(items[ParseInt(part).value], parts[1..]))
  }

  lemma {:induction false} PartsAgree(current: Json, parts: seq<string>)
    ensures PartsExist(current, parts) <==> ResolveParts(current, parts).Found? && PlainIndexes(current, parts)
    decreases |parts|
  {
    if parts != [] {
      var part := Decode(parts[0]);
      match current
      case Scalar(_) =>
      case Obj(fields) =>
        if Find(fields, part).Some? { PartsAgree(Find(fields, part).value, parts[1..]); }
      case Arr(items) =>
        if ParseInt(part).Some? && 0 <= ParseInt(part).value < |items| {
          PartsAgree(items[ParseInt(part).value], parts[1..]);
        }
    }
  }

  /**
   On every document and pointer: the anchor resolver accepts the empty pointer, and otherwise exactly what the
   selector resolver finds while it indexes arrays by plain digits only.
   */
  lemma AnchorsAcceptExactly(doc: Json, pointer: string)
    ensures PointerExists(doc, pointer) <==>
              || pointer == ""
              || (ResolveSelector(doc, pointer).Found? && PlainIndexes(doc, Split(pointer[1..])))
  {
    if pointer != "" && pointer[0] == '/' {
      PartsAgree(doc, Split(pointer[1..]));
    }
  }

  /** The two resolvers agree on existence, unless the pointer is empty or resolves through an index that is not plain digits. */
  lemma ResolversAgree(doc: Json, pointer: string)
    ensures (PointerExists(doc, pointer) <==> ResolveSelector(doc, pointer).Found?) <==>
              pointer != "" && (ResolveSelector(doc, pointer).Found? ==> PlainIndexes(doc, Split(pointer[1..])))
  {
    AnchorsAcceptExactly(doc, pointer);
  }

  /** The empty pointer separates them on every document. */
  lemma EmptyPointerDisagrees(doc: Json)
    ensures PointerExists(doc, "") && ResolveSelector(doc, "") == InvalidSelector
  {}

  /** A signed index separates them. */
  lemma SignedIndexDisagrees()
    ensures ResolveSelector(Arr([Scalar("x")]), "/+0") == Found(Scalar("x"))
    ensures !PointerExists(Arr([Scalar("x")]), "/+0")
  {
    assert "/+0"[1..] == "+0" && "+0"[1..] == "0" && "0"[1..] == "";
    SplitField("+0", "");
    assert Encode("+0") == "+0" by {
      assert ReplaceChar("0", '~', "~0") == "0" && ReplaceChar("0", '/', "~1") == "0";
    }
    DecodeEncode("+0");
    assert ParseDigits("0", 0, false) == Some(0);
    assert ParseInt("+0") == Some(0);
    assert '+' in "+0" && !IsDigit('+');
  }

  // ---- Emitting the records of a document ----

  const HTTP_METHODS: set<string> := {"get", "put", "post", "delete", "options", "head", "patch", "trace"}
  const PATHS := "paths"

  function Lower(s: string): string {
    seq(|s|, i requires 0 <= i < |s| => if 'A' <= s[i] <= 'Z' then (s[i] as int + 32) as char else s[i])
  }

  /** Only the letters A to Z change, each to its small letter. */
  lemma {:induction false} LowerExactly(text: string)
    ensures |Lower(text)| == |text|
    ensures forall i :: 0 <= i < |text| ==>
              Lower(text)[i] as int == text[i] as int + if 65 <= text[i] as int <= 90 then 32 else 0
  {
    if text != "" {
      LowerExactly(text[1..]);
      assert forall i :: 0 < i < |text| ==> Lower(text)[i] == Lower(text[1..])[i - 1] && text[i] == text[1..][i - 1];
    }
  }

  /** A record and the segments its selector is printed from. */
  datatype Emitted = Emitted(segments: seq<string>, record: Json)

  /** Which sections are skipped, and which mapping sections carry a canonical identity. */
  datatype Indexing = Indexing(skipped: string -> bool, canonical: (string, Json) -> bool)

  function ListRecords(section: string, items: seq<Json>): seq<Emitted> {
    if items == [] then []
    else
      var last := |items| - 1;
      ListRecords(section, items[..last])
      + if items[last].Obj? then [Emitted([section, Decimal(last)], items[last])] else []
  }

  predicate IsOperation(f: Field) {
    Lower(f.key) in HTTP_METHODS && f.value.Obj?
  }

  function OperationRecords(route: string, methods: seq<Field>): seq<Emitted> {
    if methods == [] then []
    else (if IsOperation(methods[0]) then [Emitted([PATHS, route, Lower(methods[0].key)], methods[0].value)] else [])
         + OperationRecords(route, methods[1..])
  }

  function RouteRecords(route: Field): seq<Emitted> {
    if route.value.Obj? then [Emitted([PATHS, route.key], route.value)] + OperationRecords(route.key, route.value.fields) else []
  }

  function PathRecords(routes: seq<Field>): seq<Emitted> {
    if routes == [] then [] else RouteRecords(routes[0]) + PathRecords(routes[1..])
  }

  function ChildRecords(section: string, fields: seq<Field>): seq<Emitted> {
    if fields == [] then []
    else (if fields[0].value.Obj? then [Emitted([section, fields[0].key], fields[0].value)] else [])
         + ChildRecords(section, fields[1..])
  }

  function SectionRecords(ix: Indexing, section: string, value: Json): seq<Emitted> {
    if ix.skipped(Lower(section)) then []
    else match value
      case Scalar(_) => []
      case Arr(items) => ListRecords(section, items)
      case Obj(fields) =>
        if section == PATHS then PathRecords(fields)
        else if ix.canonical(section, value) then [Emitted([section], value)]
        else (if exists f <- fields :: !f.value.Obj? then [Emitted([section], value)] else [])
             + ChildRecords(section, fields)
  }

  function DocumentRecords(ix: Indexing, fields: seq<Field>): seq<Emitted> {
    if fields == [] then []
    else SectionRecords(ix, fields[0].key, fields[0].value) + DocumentRecords(ix, fields[1..])
  }

  function Selector(e: Emitted): string {
    Pointer(e.segments)
  }

  // ---- Every record resolves to itself ----

  /** Following plain segments from a value. */
  function Follow(current: Json, segments: seq<string>): Resolution
    decreases |segments|
  {
    if segments == [] then Found(current)
    else match current
      case Scalar(_) => Missing
      case Obj(fields) =>
        if Find(fields, segments[0]).None? then Missing else Follow(Find(fields, segments[0]).value, segments[1..])
      case Arr(items) =>
        var index := ParseInt(segments[0]);
        if index.None? then InvalidSelector
        else if index.value < 0 || index.value >= |items| then Missing
        else Follow(items[index.value], segments[1..])
  }

  lemma {:induction false} ResolveFollows(current: Json, parts: seq<string>)
    ensures ResolveParts(current, parts) == Follow(current, DecodeAll(parts))
    decreases |parts|
  {
    if parts != [] {
      var segments := DecodeAll(parts);
      assert segments[1..] == DecodeAll(parts[1..]);
      match current
      case Scalar(_) =>
      case Obj(fields) =>
        if Find(fields, segments[0]).Some? { ResolveFollows(Find(fields, segments[0]).value, parts[1..]); }
      case Arr(items) =>
        var index := ParseInt(segments[0]);
        if index.Some? && 0 <= index.value < |items| { ResolveFollows(items[index.value], parts[1..]); }
    }
  }

  /** A printed selector resolves exactly as its segments are followed. */
  lemma SelectorFollows(doc: Json, segments: seq<string>)
    requires segments != []
    ensures ResolveSelector(doc, Pointer(segments)) == Follow(doc, segments)
  {
    PointerRoundTrip(segments);
    ResolveFollows(doc, Split(Pointer(segments)[1..]));
  }

  /** Every HTTP-method key of a path item is reachable under its lower-case spelling. */
  predicate MethodsReachable(methods: seq<Field>) {
    forall f <- methods | IsOperation(f) :: Find(methods, Lower(f.key)) == Some(f.value)
  }

  predicate RoutesReachable(ix: Indexing, fields: seq<Field>) {
    forall f <- fields | f.key == PATHS && f.value.Obj? && !ix.skipped(Lower(f.key)) ::
      forall route <- f.value.fields | route.value.Obj? :: MethodsReachable(route.value.fields)
  }

  lemma {:induction false} ListRecordsResolve(section: string, items: seq<Json>, all: seq<Json>)
    requires items <= all
    ensures forall e <- ListRecords(section, items) ::
              |e.segments| == 2 && e.segments[0] == section && Follow(Arr(all), e.segments[1..]) == Found(e.record)
  {
    if items != [] {
      var last := |items| - 1;
      ListRecordsResolve(section, items[..last], all);
      ParseIntDecimal(last);
      assert [section, Decimal(last)][1..] == [Decimal(last)] && [Decimal(last)][1..] == [];
    }
  }

  lemma {:induction false} OperationRecordsResolve(route: string, methods: seq<Field>, all: seq<Field>)
    requires forall f <- methods :: f in all
    ensures forall e <- OperationRecords(route, methods) ::
              |e.segments| == 3 && e.segments[0] == PATHS && e.segments[1] == route
    ensures (forall e <- OperationRecords(route, methods) :: Follow(Obj(all), e.segments[2..]) == Found(e.record))
       <==> (forall f <- methods | IsOperation(f) :: Find(all, Lower(f.key)) == Some(f.value))
  {
    if methods != [] {
      OperationRecordsResolve(route, methods[1..], all);
      assert methods == [methods[0]] + methods[1..];
      var key := Lower(methods[0].key);
      assert [PATHS, route, key][2..] == [key] && [key][1..] == [];
      assert Follow(Obj(all), [key]) == if Find(all, key).None? then Missing else Found(Find(all, key).value);
    }
  }

  ghost predicate AllResolve(current: Json, emitted: seq<Emitted>, depth: nat)
    requires forall e <- emitted :: depth <= |e.segments|
  {
    forall e <- emitted :: Follow(current, e.segments[depth..]) == Found(e.record)
  }

  lemma AllResolveAppend(current: Json, a: seq<Emitted>, b: seq<Emitted>)
    requires (forall e <- a :: 1 <= |e.segments|) && (forall e <- b :: 1 <= |e.segments|)
    ensures AllResolve(current, a + b, 1) <==> AllResolve(current, a, 1) && AllResolve(current, b, 1)
  {
    assert (forall e <- a :: e in a + b) && (forall e <- b :: e in a + b);
  }

  lemma FindIn(fields: seq<Field>, f: Field)
    requires UniqueKeys(fields) && f in fields
    ensures Find(fields, f.key) == Some(f.value)
  {
    var i :| 0 <= i < |fields| && fields[i] == f;
    FindField(fields, i);
  }

  lemma {:induction false} PathRecordsResolve(routes: seq<Field>, all: seq<Field>)
    requires UniqueKeys(all) && forall f <- routes :: f in all
    ensures forall e <- PathRecords(routes) :: |e.segments| >= 2 && e.segments[0] == PATHS
    ensures AllResolve(Obj(all), PathRecords(routes), 1)
       <==> forall route <- routes | route.value.Obj? :: MethodsReachable(route.value.fields)
  {
    if routes != [] {
      var route := routes[0];
      PathRecordsResolve(routes[1..], all);
      assert routes == [route] + routes[1..];
      FindIn(all, route);
      if route.value.Obj? {
        var methods := route.value.fields;
        OperationRecordsResolve(route.key, methods, methods);
        assert [PATHS, route.key][1..] == [route.key] && [route.key][1..] == [];
        forall e <- OperationRecords(route.key, methods)
          ensures Follow(Obj(all), e.segments[1..]) == Follow(Obj(methods), e.segments[2..])
        {
          assert e.segments[1..][0] == route.key && e.segments[1..][1..] == e.segments[2..];
        }
        var head := [Emitted([PATHS, route.key], route.value)];
        var operations, rest := OperationRecords(route.key, methods), PathRecords(routes[1..]);
        assert Follow(Obj(all), [route.key]) == Found(route.value);
        assert AllResolve(Obj(all), head, 1);
        assert AllResolve(Obj(all), operations, 1) <==> MethodsReachable(methods);
        AllResolveAppend(Obj(all), head, operations);
        AllResolveAppend(Obj(all), head + operations, rest);
      }
    }
  }

  lemma {:induction false} ChildRecordsResolve(section: string, fields: seq<Field>, all: seq<Field>)
    requires UniqueKeys(all) && forall f <- fields :: f in all
    ensures forall e <- ChildRecords(section, fields) ::
              |e.segments| == 2 && e.segments[0] == section && Follow(Obj(all), e.segments[1..]) == Found(e.record)
  {
    if fields != [] {
      ChildRecordsResolve(section, fields[1..], all);
      assert fields == [fields[0]] + fields[1..];
      FindIn(all, fields[0]);
      assert [section, fields[0].key][1..] == [fields[0].key] && [fields[0].key][1..] == [];
    }
  }

  lemma SectionRecordsResolve(ix: Indexing, f: Field)
    requires WellKeyed(f.value)
    ensures forall e <- SectionRecords(ix, f.key, f.value) :: e.segments != [] && e.segments[0] == f.key
    ensures AllResolve(f.value, SectionRecords(ix, f.key, f.value), 1)
       <==> (f.key == PATHS && f.value.Obj? && !ix.skipped(Lower(f.key)) ==>
               forall route <- f.value.fields | route.value.Obj? :: MethodsReachable(route.value.fields))
  {
    match f.value
    case Scalar(_) =>
    case Arr(items) => ListRecordsResolve(f.key, items, items);
    case Obj(fields) =>
      PathRecordsResolve(fields, fields);
      ChildRecordsResolve(f.key, fields, fields);
      assert [f.key][1..] == [];
  }

  lemma {:induction false} DocumentRecordsResolve(ix: Indexing, fields: seq<Field>, all: seq<Field>)
    requires UniqueKeys(all) && (forall f <- fields :: f in all && WellKeyed(f.value))
    ensures forall e <- DocumentRecords(ix, fields) :: e.segments != []
    ensures AllResolve(Obj(all), DocumentRecords(ix, fields), 0) <==> RoutesReachable(ix, fields)
  {
    if fields != [] {
      var f := fields[0];
      DocumentRecordsResolve(ix, fields[1..], all);
      assert fields == [f] + fields[1..];
      SectionRecordsResolve(ix, f);
      FindIn(all, f);
      OneLevelUp(all, f, SectionRecords(ix, f.key, f.value));
    }
  }

  /** Records that resolve within a section resolve from the document, and conversely. */
  lemma OneLevelUp(all: seq<Field>, f: Field, records: seq<Emitted>)
    requires Find(all, f.key) == Some(f.value) && forall e <- records :: e.segments != [] && e.segments[0] == f.key
    ensures AllResolve(Obj(all), records, 0) <==> AllResolve(f.value, records, 1)
  {
    forall e <- records ensures Follow(Obj(all), e.segments[0..]) == Follow(f.value, e.segments[1..]) {
      assert e.segments[0..] == e.segments;
    }
  }

  /**
   All records of a document resolve by their own selectors to themselves if and only if every HTTP-method key of
   every path item is found again under its lower-case spelling.
   */
  lemma RecordsResolveToThemselves(ix: Indexing, fields: seq<Field>)
    requires WellKeyed(Obj(fields))
    ensures (forall e <- DocumentRecords(ix, fields) :: ResolveSelector(Obj(fields), Selector(e)) == Found(e.record))
       <==> RoutesReachable(ix, fields)
  {
    DocumentRecordsResolve(ix, fields, fields);
    forall e <- DocumentRecords(ix, fields)
      ensures ResolveSelector(Obj(fields), Selector(e)) == Follow(Obj(fields), e.segments[0..])
    {
      SelectorFollows(Obj(fields), e.segments);
      assert e.segments[0..] == e.segments;
    }
  }

  predicate LowerCaseMethods(fields: seq<Field>) {
    forall f <- fields | f.value.Obj? :: forall route <- f.value.fields | route.value.Obj? ::
      forall m <- route.value.fields | IsOperation(m) :: Lower(m.key) == m.key
  }

  /** Documents that spell their HTTP methods in lower case meet the condition. */
  lemma LowerCaseMethodsReachable(ix: Indexing, fields: seq<Field>)
    requires WellKeyed(Obj(fields)) && LowerCaseMethods(fields)
    ensures RoutesReachable(ix, fields)
  {
    forall f <- fields, route, m | f.value.Obj? && route in f.value.fields && route.value.Obj? && m in route.value.fields && IsOperation(m)
      ensures Find(route.value.fields, Lower(m.key)) == Some(m.value)
    {
      assert WellKeyed(f.value) && WellKeyed(route.value);
      FindIn(route.value.fields, m);
    }
  }

  // ---- No two records share a selector ----

  predicate Distinct(emitted: seq<Emitted>) {
    forall i, j :: 0 <= i < j < |emitted| ==> emitted[i].segments != emitted[j].segments
  }

  lemma DistinctAppend(a: seq<Emitted>, b: seq<Emitted>)
    requires Distinct(a) && Distinct(b)
    requires forall x <- a, y <- b :: x.segments != y.segments
    ensures Distinct(a + b)
  {}

  predicate DistinctMethods(methods: seq<Field>) {
    forall i, j :: 0 <= i < j < |methods| && IsOperation(methods[i]) && IsOperation(methods[j]) ==>
      Lower(methods[i].key) != Lower(methods[j].key)
  }

  lemma {:induction false} DecimalInjective(a: nat, b: nat)
    requires Decimal(a) == Decimal(b)
    ensures a == b
  {
    ParseIntDecimal(a);
    ParseIntDecimal(b);
  }

  predicate AtIndexBelow(section: string, n: nat, e: Emitted) {
    exists i :: 0 <= i < n && e.segments == [section, Decimal(i)]
  }

  lemma {:induction false} ListRecordsDistinct(section: string, items: seq<Json>)
    ensures Distinct(ListRecords(section, items))
    ensures forall e <- ListRecords(section, items) :: AtIndexBelow(section, |items|, e)
  {
    if items != [] {
      var last := |items| - 1;
      var earlier := ListRecords(section, items[..last]);
      ListRecordsDistinct(section, items[..last]);
      forall e <- earlier ensures e.segments != [section, Decimal(last)] && AtIndexBelow(section, |items|, e) {
        assert AtIndexBelow(section, last, e);
        var i :| 0 <= i < last && e.segments == [section, Decimal(i)];
        if Decimal(i) == Decimal(last) { DecimalInjective(i, last); }
        assert e.segments[1] == Decimal(i);
      }
      forall e <- ListRecords(section, items) ensures AtIndexBelow(section, |items|, e) {
        assert e in earlier || e.segments == [section, Decimal(last)];
      }
    }
  }

  lemma {:induction false} OperationRecordsDistinct(route: string, methods: seq<Field>)
    requires DistinctMethods(methods)
    ensures Distinct(OperationRecords(route, methods))
    ensures forall e <- OperationRecords(route, methods) ::
              exists m <- methods :: IsOperation(m) && e.segments == [PATHS, route, Lower(m.key)]
  {
    if methods != [] {
      OperationRecordsDistinct(route, methods[1..]);
      assert methods == [methods[0]] + methods[1..];
      forall e <- OperationRecords(route, methods[1..]) | IsOperation(methods[0])
        ensures e.segments != [PATHS, route, Lower(methods[0].key)]
      {
        var m :| m in methods[1..] && IsOperation(m) && e.segments == [PATHS, route, Lower(m.key)];
        var j :| 0 <= j < |methods[1..]| && methods[1..][j] == m;
        assert methods[j + 1] == m;
        assert e.segments[2] == Lower(m.key);
      }
    }
  }

  lemma {:induction false} PathRecordsDistinct(routes: seq<Field>)
    requires UniqueKeys(routes)
    requires forall r <- routes | r.value.Obj? :: DistinctMethods(r.value.fields)
    ensures Distinct(PathRecords(routes))
    ensures forall e <- PathRecords(routes) :: |e.segments| >= 2 && exists r <- routes :: e.segments[1] == r.key
  {
    if routes != [] {
      var route := routes[0];
      PathRecordsDistinct(routes[1..]);
      assert routes == [route] + routes[1..];
      forall e <- PathRecords(routes[1..]) ensures e.segments[1] != route.key {
        var r :| r in routes[1..] && e.segments[1] == r.key;
        var j :| 0 <= j < |routes[1..]| && routes[1..][j] == r;
        assert routes[j + 1] == r;
      }
      if route.value.Obj? {
        OperationRecordsDistinct(route.key, route.value.fields);
        var head := [Emitted([PATHS, route.key], route.value)];
        DistinctAppend(head, OperationRecords(route.key, route.value.fields));
        DistinctAppend(head + OperationRecords(route.key, route.value.fields), PathRecords(routes[1..]));
      }
    }
  }

  lemma {:induction false} ChildRecordsDistinct(section: string, fields: seq<Field>)
    requires UniqueKeys(fields)
    ensures Distinct(ChildRecords(section, fields))
    ensures forall e <- ChildRecords(section, fields) :: exists f <- fields :: e.segments == [section, f.key]
  {
    if fields != [] {
      ChildRecordsDistinct(section, fields[1..]);
      assert fields == [fields[0]] + fields[1..];
      forall e <- ChildRecords(section, fields[1..]) ensures e.segments != [section, fields[0].key] {
        var f :| f in fields[1..] && e.segments == [section, f.key];
        var j :| 0 <= j < |fields[1..]| && fields[1..][j] == f;
        assert fields[j + 1] == f && e.segments[1] == f.key;
      }
    }
  }

  predicate DistinctOperations(f: Field) {
    f.value.Obj? ==> forall route <- f.value.fields | route.value.Obj? :: DistinctMethods(route.value.fields)
  }

  lemma SectionRecordsDistinct(ix: Indexing, f: Field)
    requires WellKeyed(f.value) && DistinctOperations(f)
    ensures Distinct(SectionRecords(ix, f.key, f.value))
  {
    match f.value
    case Scalar(_) =>
    case Arr(items) => ListRecordsDistinct(f.key, items);
    case Obj(fields) =>
      PathRecordsDistinct(fields);
      ChildRecordsDistinct(f.key, fields);
      DistinctAppend([Emitted([f.key], f.value)], ChildRecords(f.key, fields));
  }

  lemma {:induction false} DocumentRecordsDistinct(ix: Indexing, fields: seq<Field>)
    requires UniqueKeys(fields) && forall f <- fields :: WellKeyed(f.value) && DistinctOperations(f)
    ensures Distinct(DocumentRecords(ix, fields))
    ensures forall e <- DocumentRecords(ix, fields) :: e.segments != [] && exists f <- fields :: f.key == e.segments[0]
  {
    if fields != [] {
      var f := fields[0];
      DocumentRecordsDistinct(ix, fields[1..]);
      assert fields == [f] + fields[1..];
      SectionRecordsDistinct(ix, f);
      SectionRecordsResolve(ix, f);
      forall e <- DocumentRecords(ix, fields[1..]) ensures e.segments[0] != f.key {
        var g :| g in fields[1..] && g.key == e.segments[0];
        var j :| 0 <= j < |fields[1..]| && fields[1..][j] == g;
        assert fields[j + 1] == g;
      }
      DistinctAppend(SectionRecords(ix, f.key, f.value), DocumentRecords(ix, fields[1..]));
    }
  }

  /** The selectors of one document are pairwise different when no path item spells one method in two ways. */
  lemma SelectorsAreUnique(ix: Indexing, fields: seq<Field>, i: nat, j: nat)
    requires WellKeyed(Obj(fields)) && forall f <- fields :: DistinctOperations(f)
    requires i < j < |DocumentRecords(ix, fields)|
    ensures Selector(DocumentRecords(ix, fields)[i]) != Selector(DocumentRecords(ix, fields)[j])
  {
    DocumentRecordsDistinct(ix, fields);
    var a, b := DocumentRecords(ix, fields)[i], DocumentRecords(ix, fields)[j];
    assert a.segments != b.segments;
    if Selector(a) == Selector(b) {
      PointerInjective(a.segments, b.segments);
    }
  }

  /** An upper-case method is emitted under a selector that does not exist. */
  lemma UpperCaseMethodIsLost(ix: Indexing)
    requires !ix.skipped(PATHS)
    ensures var doc := [Field(PATHS, Obj([Field("/a", Obj([Field("GET", Obj([]))]))]))];
            exists e <- DocumentRecords(ix, doc) :: ResolveSelector(Obj(doc), Selector(e)) != Found(e.record)
  {
    var operation := Field("GET", Obj([]));
    var route := Field("/a", Obj([operation]));
    var doc := [Field(PATHS, Obj([route]))];
    assert Lower("GET") == "get" && Lower(PATHS) == PATHS;
    assert "GET" != "get" by { assert "GET"[0] != "get"[0]; }
    assert IsOperation(operation) && operation in route.value.fields && route in doc[0].value.fields && doc[0] in doc;
    assert [operation][1..] == [];
    assert Find([operation], "get") == None;
    assert !MethodsReachable(route.value.fields);
    assert !RoutesReachable(ix, doc);
    assert WellKeyed(operation.value) && WellKeyed(route.value) && WellKeyed(Obj([route]));
    assert WellKeyed(Obj(doc));
    RecordsResolveToThemselves(ix, doc);
  }

  // ---- Which records a document has ----

  /** A list gives its objects by index. */
  predicate ListEmits(f: Field, e: Emitted) {
    f.value.Arr? && exists n :: 0 <= n < |f.value.items| && f.value.items[n].Obj? && e == Emitted([f.key, Decimal(n)], f.value.items[n])
  }

  /** A path item and its operations, these under the lower-case method. */
  predicate OneRouteEmits(route: Field, e: Emitted) {
    route.value.Obj?
    && (e == Emitted(["paths", route.key], route.value)
        || exists m <- route.value.fields :: m.value.Obj? && e == Emitted(["paths", route.key, Lower(m.key)], m.value)
             && Lower(m.key) in {"get", "put", "post", "delete", "options", "head", "patch", "trace"})
  }

  predicate PathsEmit(f: Field, e: Emitted) {
    f.value.Obj? && f.key == "paths" && exists route <- f.value.fields :: OneRouteEmits(route, e)
  }

  /** Any other mapping is one record if it has a canonical id or a property that is no object; without a canonical id its objects are records too. */
  predicate MappingEmits(ix: Indexing, f: Field, e: Emitted) {
    && f.value.Obj? && f.key != "paths"
    && ((e == Emitted([f.key], f.value) && (ix.canonical(f.key, f.value) || exists p <- f.value.fields :: !p.value.Obj?))
        || (!ix.canonical(f.key, f.value) && exists child <- f.value.fields :: child.value.Obj? && e == Emitted([f.key, child.key], child.value)))
  }

  predicate Emits(ix: Indexing, f: Field, e: Emitted) {
    !ix.skipped(Lower(f.key)) && (ListEmits(f, e) || PathsEmit(f, e) || MappingEmits(ix, f, e))
  }

  lemma {:induction false} ListRecordsExactly(section: string, items: seq<Json>, e: Emitted)
    ensures e in ListRecords(section, items) <==> exists n :: 0 <= n < |items| && items[n].Obj? && e == Emitted([section, Decimal(n)], items[n])
  {
    if items != [] {
      var last := |items| - 1;
      ListRecordsExactly(section, items[..last], e);
      assert forall n :: 0 <= n < last ==> items[..last][n] == items[n];
    }
  }

  lemma {:induction false} OperationRecordsExactly(route: string, methods: seq<Field>, e: Emitted)
    ensures e in OperationRecords(route, methods) <==>
              exists m <- methods :: IsOperation(m) && e == Emitted([PATHS, route, Lower(m.key)], m.value)
  {
    if methods != [] {
      OperationRecordsExactly(route, methods[1..], e);
      assert methods == [methods[0]] + methods[1..];
    }
  }

  predicate RouteEmits(route: Field, e: Emitted) {
    route.value.Obj?
    && (e == Emitted([PATHS, route.key], route.value)
        || exists m <- route.value.fields :: IsOperation(m) && e == Emitted([PATHS, route.key, Lower(m.key)], m.value))
  }

  lemma RouteRecordsExactly(route: Field, e: Emitted)
    ensures e in RouteRecords(route) <==> RouteEmits(route, e)
  {
    if route.value.Obj? { OperationRecordsExactly(route.key, route.value.fields, e); }
  }

  lemma {:induction false} PathRecordsExactly(routes: seq<Field>, e: Emitted)
    ensures e in PathRecords(routes) <==> exists route <- routes :: RouteEmits(route, e)
  {
    if routes != [] {
      PathRecordsExactly(routes[1..], e);
      RouteRecordsExactly(routes[0], e);
      assert PathRecords(routes) == RouteRecords(routes[0]) + PathRecords(routes[1..]);
      assert routes == [routes[0]] + routes[1..];
    }
  }

  lemma {:induction false} ChildRecordsExactly(section: string, fields: seq<Field>, e: Emitted)
    ensures e in ChildRecords(section, fields) <==> exists f <- fields :: f.value.Obj? && e == Emitted([section, f.key], f.value)
  {
    if fields != [] {
      ChildRecordsExactly(section, fields[1..], e);
      assert fields == [fields[0]] + fields[1..];
    }
  }

  lemma PathsSectionExactly(ix: Indexing, f: Field, e: Emitted)
    requires f.value.Obj? && f.key == PATHS && !ix.skipped(Lower(f.key))
    ensures e in SectionRecords(ix, f.key, f.value) <==> PathsEmit(f, e)
  {
    PathRecordsExactly(f.value.fields, e);
    forall route <- f.value.fields ensures RouteEmits(route, e) <==> OneRouteEmits(route, e) {
      RouteEmitsLiterally(route, e);
    }
  }

  lemma RouteEmitsLiterally(route: Field, e: Emitted)
    ensures RouteEmits(route, e) <==> OneRouteEmits(route, e)
  {}

  lemma MappingSectionExactly(ix: Indexing, f: Field, e: Emitted)
    requires f.value.Obj? && f.key != PATHS && !ix.skipped(Lower(f.key))
    ensures e in SectionRecords(ix, f.key, f.value) <==> MappingEmits(ix, f, e)
  {
    ChildRecordsExactly(f.key, f.value.fields, e);
  }

  lemma SectionRecordsExactly(ix: Indexing, f: Field, e: Emitted)
    ensures e in SectionRecords(ix, f.key, f.value) <==> Emits(ix, f, e)
  {
    if !ix.skipped(Lower(f.key)) {
      match f.value
      case Scalar(_) =>
      case Arr(items) => ListRecordsExactly(f.key, items, e);
      case Obj(fields) =>
        if f.key == PATHS { PathsSectionExactly(ix, f, e); } else { MappingSectionExactly(ix, f, e); }
    }
  }

  /** The records of a document are exactly these, for every section that is not skipped. */
  lemma {:induction false} DocumentRecordsExactly(ix: Indexing, fields: seq<Field>, e: Emitted)
    ensures e in DocumentRecords(ix, fields) <==> exists f <- fields :: Emits(ix, f, e)
  {
    if fields != [] {
      DocumentRecordsExactly(ix, fields[1..], e);
      SectionRecordsExactly(ix, fields[0], e);
      assert fields == [fields[0]] + fields[1..];
    }
  }
}
