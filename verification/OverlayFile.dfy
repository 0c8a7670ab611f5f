/** Overlay files: the event grammar they are written in, what a file means, and parse_uint32.

    `ParseDoc` reads the grammar, `UnparseDoc` writes it, and `ParsesExactly` says each undoes the
    other: the loader accepts exactly the event sequences that some document is written as. */
module OverlayFile {
  import opened Schema

  datatype Event = StreamStart | StreamEnd | DocStart | DocEnd | MapStart | MapEnd | SeqStart | SeqEnd | AliasRef | Scalar(text: string)

  datatype Field = Field(key: string, value: string)
  datatype Entry = Entry(key: string, fields: seq<Field>)
  datatype SetEntry = SetEntry(key: string, attrs: seq<Entry>)
  datatype Top =
    | Operations(key: string, entries: seq<Entry>)
    | McastGroups(key: string, entries: seq<Entry>)
    | AttributeSets(key: string, sets: seq<SetEntry>)
    | Plain(key: string, value: string)

  /** take_scalar copies up to the first NUL. */
  function CStr(s: string): string {
    UpTo(s, '\0')
  }

  // ---------------------------------------------------------------------------------------------
  // parse_uint32: strtoul in base 10 on a 64-bit host, then the checks around it

  predicate Space(c: char) {
    c == ' ' || '\t' <= c <= '\r'
  }

  predicate Digit(c: char) {
    '0' <= c <= '9'
  }

  function SkipSpace(s: string): string {
    if s != [] && Space(s[0]) then SkipSpace(s[1..]) else s
  }

  predicate AllDigits(s: string) {
    forall c :: c in s ==> Digit(c)
  }

  function DigitValue(c: char): nat
    requires Digit(c)
  {
    c as int - '0' as int
  }

  function DigitsValue(s: string): nat
    requires AllDigits(s)
  {
    if s == [] then 0 else 10 * DigitsValue(s[..|s| - 1]) + DigitValue(s[|s| - 1])
  }

  const ULONG_RANGE: nat := 0x1_0000_0000_0000_0000
  const UINT32_RANGE: nat := 0x1_0000_0000

  function Uint32(s: string): (r: Option<nat>)
    ensures r.Some? ==> r.value < UINT32_RANGE
  {
    var body := SkipSpace(s);
    var minus := body != [] && body[0] == '-';
    var digits := if body != [] && (body[0] == '-' || body[0] == '+') then body[1..] else body;
    if digits == [] || !AllDigits(digits) then None
    else
      var magnitude := DigitsValue(digits);
      if magnitude >= ULONG_RANGE then None  // ERANGE
      else
        var v := if minus && magnitude > 0 then ULONG_RANGE - magnitude else magnitude;
        if v < UINT32_RANGE then Some(v) else None
  }

  /** Digits behind optional white space and an optional sign. */
  predicate Spells(space: string, sign: string, digits: string) {
    && (forall c :: c in space ==> c as int == 32 || 9 <= c as int <= 13) && sign in ["", "+", "-"]
    && digits != "" && AllDigits(digits) && (forall c :: c in digits ==> 48 <= c as int <= 57)
  }

  /** Digits in base ten, the last one for the ones. */
  lemma Places(s: string, c: char)
    requires AllDigits(s) && 48 <= c as int <= 57
    ensures AllDigits([c]) && DigitsValue([c]) == c as int - 48
    ensures AllDigits(s + [c]) && DigitsValue(s + [c]) == 10 * DigitsValue(s) + (c as int - 48)
  {
    assert [c][..0] == "" && (s + [c])[..|s|] == s;
  }

  /** A C string ends at its first NUL. */
  lemma {:induction false} CStrIs(s: string, tail: string)
    requires '\0' !in s
    ensures CStr(s) == s && CStr(s + "\0" + tail) == s
  {
    if s == "" {
      assert (s + "\0" + tail)[0] == '\0';
    } else {
      CStrIs(s[1..], tail);
      assert s[0] in s && (s + "\0" + tail)[1..] == s[1..] + "\0" + tail;
    }
  }

  lemma {:induction false} Skipped(space: string, rest: string)
    requires (forall c :: c in space ==> Space(c)) && (rest == "" || !Space(rest[0]))
    ensures SkipSpace(space + rest) == rest
  {
    if space == "" {
      assert space + rest == rest;
    } else {
      assert (space + rest)[1..] == space[1..] + rest && space[0] in space;
      Skipped(space[1..], rest);
    }
  }

  /** Such a text is the number its digits spell, wrapped at 2^64 behind a minus, if both fit. */
  lemma NumberText(space: string, sign: string, digits: string)
    requires Spells(space, sign, digits)
    ensures var n := DigitsValue(digits);
      var v := if sign == "-" && n > 0 then 18446744073709551616 - n else n;
      Uint32(space + sign + digits) == if n < 18446744073709551616 && v < 4294967296 then Some(v) else None
  {
    assert digits[0] in digits;
    assert space + sign + digits == space + (sign + digits);
    Skipped(space, sign + digits);
    if sign == "" {
      assert sign + digits == digits;
    } else {
      assert (sign + digits)[1..] == digits && (sign + digits)[0] == sign[0];
    }
  }

  /** No other text is a number. */
  lemma {:induction false} OnlyNumbers(s: string) returns (space: string, sign: string, digits: string)
    requires Uint32(s).Some?
    ensures Spells(space, sign, digits) && s == space + sign + digits
  {
    hide DigitsValue, SkipSpace;
    var body := SkipSpace(s);
    space := Skip(s);
    sign := if body[0] == '-' then "-" else if body[0] == '+' then "+" else "";
    digits := body[|sign|..];
  }

  lemma {:induction false} Skip(s: string) returns (space: string)
    ensures (forall c :: c in space ==> Space(c)) && s == space + SkipSpace(s)
  {
    if s != "" && Space(s[0]) {
      space := Skip(s[1..]);
      space := [s[0]] + space;
    } else {
      space := "";
    }
  }

  /** How the generator writes an id. */
  function Decimal(n: nat): (s: string)
    ensures s != [] && AllDigits(s) && DigitsValue(s) == n
  {
    var d := [('0' as nat + n % 10) as char];
    if n < 10 then d else Decimal(n / 10) + d
  }

  lemma DecimalParses(n: nat)
    requires n < UINT32_RANGE
    ensures Uint32(Decimal(n)) == Some(n)
  {
    assert Decimal(n)[0] in Decimal(n);
  }

  // ---------------------------------------------------------------------------------------------
  // The grammar, read

  datatype Parsed<+T> = Fail | Ok(value: T, rest: seq<Event>)

  function ParseFields(ev: seq<Event>): (r: Parsed<seq<Field>>)
    ensures r.Ok? ==> |r.rest| < |ev|
    decreases |ev|
  {
    if ev == [] then Fail
    else if ev[0] == MapEnd then Ok([], ev[1..])
    else if |ev| > 1 && ev[0].Scalar? && ev[1].Scalar? then
      match ParseFields(ev[2..])
      case Fail => Fail
      case Ok(fs, rest) => Ok([Field(ev[0].text, ev[1].text)] + fs, rest)
    else Fail
  }

  predicate KeyOk(key: string, numeric: bool) {
    numeric ==> Uint32(CStr(key)).Some?
  }

  /** `numeric` asks every key to be an integer, as attribute ids must be. */
  function ParseEntries(ev: seq<Event>, numeric: bool): (r: Parsed<seq<Entry>>)
    ensures r.Ok? ==> |r.rest| < |ev|
    decreases |ev|
  {
    if ev == [] then Fail
    else if ev[0] == MapEnd then Ok([], ev[1..])
    else if |ev| > 1 && ev[0].Scalar? && KeyOk(ev[0].text, numeric) && ev[1] == MapStart then
      match ParseFields(ev[2..])
      case Fail => Fail
      case Ok(fs, rest) =>
        match ParseEntries(rest, numeric)
        case Fail => Fail
        case Ok(es, rest') => Ok([Entry(ev[0].text, fs)] + es, rest')
    else Fail
  }

  function ParseSets(ev: seq<Event>): (r: Parsed<seq<SetEntry>>)
    ensures r.Ok? ==> |r.rest| < |ev|
    decreases |ev|
  {
    if ev == [] then Fail
    else if ev[0] == MapEnd then Ok([], ev[1..])
    else if |ev| > 1 && ev[0].Scalar? && ev[1] == MapStart then
      match ParseEntries(ev[2..], true)
      case Fail => Fail
      case Ok(attrs, rest) =>
        match ParseSets(rest)
        case Fail => Fail
        case Ok(sets, rest') => Ok([SetEntry(ev[0].text, attrs)] + sets, rest')
    else Fail
  }

  /** One key of the top mapping with its value. */
  function ParseTop(ev: seq<Event>): (r: Parsed<Top>)
    requires ev != [] && ev[0].Scalar?
    ensures r.Ok? ==> |r.rest| < |ev|
  {
    var key := ev[0].text;
    if |ev| == 1 then Fail
    else if CStr(key) == "operations" then
      if ev[1] != MapStart then Fail else
        match ParseEntries(ev[2..], false) case Fail => Fail case Ok(es, rest) => Ok(Operations(key, es), rest)
    else if CStr(key) == "mcast_groups" then
      if ev[1] != MapStart then Fail else
        match ParseEntries(ev[2..], false) case Fail => Fail case Ok(es, rest) => Ok(McastGroups(key, es), rest)
    else if CStr(key) == "attribute_sets" then
      if ev[1] != MapStart then Fail else
        match ParseSets(ev[2..]) case Fail => Fail case Ok(sets, rest) => Ok(AttributeSets(key, sets), rest)
    else if ev[1].Scalar? then Ok(Plain(key, ev[1].text), ev[2..])
    else Fail
  }

  function ParseTops(ev: seq<Event>): (r: Parsed<seq<Top>>)
    ensures r.Ok? ==> |r.rest| < |ev|
    decreases |ev|
  {
    if ev == [] then Fail
    else if ev[0] == MapEnd then Ok([], ev[1..])
    else if !ev[0].Scalar? then Fail
    else
      match ParseTop(ev)
      case Fail => Fail
      case Ok(t, rest) =>
        match ParseTops(rest)
        case Fail => Fail
        case Ok(ts, rest') => Ok([t] + ts, rest')
  }

  function ParseDoc(ev: seq<Event>): Parsed<seq<Top>> {
    if |ev| >= 3 && ev[0] == StreamStart && ev[1] == DocStart && ev[2] == MapStart then ParseTops(ev[3..]) else Fail
  }

  // ---------------------------------------------------------------------------------------------
  // The grammar, written in front of whatever follows

  function UnparseFields(fs: seq<Field>, rest: seq<Event>): seq<Event> {
    if fs == [] then [MapEnd] + rest
    else [Scalar(fs[0].key), Scalar(fs[0].value)] + UnparseFields(fs[1..], rest)
  }

  function UnparseEntries(es: seq<Entry>, rest: seq<Event>): seq<Event> {
    if es == [] then [MapEnd] + rest
    else [Scalar(es[0].key), MapStart] + UnparseFields(es[0].fields, UnparseEntries(es[1..], rest))
  }

  function UnparseSets(ss: seq<SetEntry>, rest: seq<Event>): seq<Event> {
    if ss == [] then [MapEnd] + rest
    else [Scalar(ss[0].key), MapStart] + UnparseEntries(ss[0].attrs, UnparseSets(ss[1..], rest))
  }

  function UnparseTop(t: Top, rest: seq<Event>): seq<Event> {
    match t
    case Operations(key, es) => [Scalar(key), MapStart] + UnparseEntries(es, rest)
    case McastGroups(key, es) => [Scalar(key), MapStart] + UnparseEntries(es, rest)
    case AttributeSets(key, sets) => [Scalar(key), MapStart] + UnparseSets(sets, rest)
    case Plain(key, value) => [Scalar(key), Scalar(value)] + rest
  }

  function UnparseTops(ts: seq<Top>, rest: seq<Event>): seq<Event> {
    if ts == [] then [MapEnd] + rest else UnparseTop(ts[0], UnparseTops(ts[1..], rest))
  }

  function UnparseDoc(ts: seq<Top>, rest: seq<Event>): seq<Event> {
    [StreamStart, DocStart, MapStart] + UnparseTops(ts, rest)
  }

  predicate NumericKeys(es: seq<Entry>) {
    forall e :: e in es ==> KeyOk(e.key, true)
  }

  predicate SetsOk(ss: seq<SetEntry>) {
    forall s :: s in ss ==> NumericKeys(s.attrs)
  }

  /** A key stands in front of the kind of value its name announces, and attribute ids are integers. */
  predicate TopOk(t: Top) {
    match t
    case Operations(key, _) => CStr(key) == "operations"
    case McastGroups(key, _) => CStr(key) == "mcast_groups"
    case AttributeSets(key, sets) => CStr(key) == "attribute_sets" && SetsOk(sets)
    case Plain(key, _) => CStr(key) !in ["operations", "mcast_groups", "attribute_sets"]
  }

  predicate DocOk(ts: seq<Top>) {
    forall t :: t in ts ==> TopOk(t)
  }

  // ---------------------------------------------------------------------------------------------
  // Each undoes the other

  lemma Two(a: Event, b: Event, rest: seq<Event>)
    ensures ([a, b] + rest)[2..] == rest && ([a] + rest)[1..] == rest
  {
  }

  lemma Front(ev: seq<Event>)
    ensures |ev| > 0 ==> ev == [ev[0]] + ev[1..]
    ensures |ev| > 1 ==> ev == [ev[0], ev[1]] + ev[2..]
  {
  }

  lemma {:induction false} FieldsThere(fs: seq<Field>, rest: seq<Event>)
    ensures ParseFields(UnparseFields(fs, rest)) == Ok(fs, rest)
  {
    if fs == [] {
      Two(MapEnd, MapEnd, rest);
    } else {
      FieldsThere(fs[1..], rest);
      Two(Scalar(fs[0].key), Scalar(fs[0].value), UnparseFields(fs[1..], rest));
      assert fs == [Field(fs[0].key, fs[0].value)] + fs[1..];
    }
  }

  lemma {:induction false} FieldsBack(ev: seq<Event>)
    requires ParseFields(ev).Ok?
    ensures ev == UnparseFields(ParseFields(ev).value, ParseFields(ev).rest)
    decreases |ev|
  {
    Front(ev);
    if ev[0] != MapEnd {
      FieldsBack(ev[2..]);
      assert ParseFields(ev).value[1..] == ParseFields(ev[2..]).value;
    }
  }

  lemma {:induction false} EntriesThere(es: seq<Entry>, numeric: bool, rest: seq<Event>)
    requires numeric ==> NumericKeys(es)
    ensures ParseEntries(UnparseEntries(es, rest), numeric) == Ok(es, rest)
  {
    hide CStr, Uint32, ParseFields, UnparseFields;
    if es == [] {
      Two(MapEnd, MapEnd, rest);
    } else {
      assert es[0] in es;
      EntriesThere(es[1..], numeric, rest);
      FieldsThere(es[0].fields, UnparseEntries(es[1..], rest));
      Two(Scalar(es[0].key), MapStart, UnparseFields(es[0].fields, UnparseEntries(es[1..], rest)));
      assert es == [Entry(es[0].key, es[0].fields)] + es[1..];
    }
  }

  lemma {:induction false} EntriesBack(ev: seq<Event>, numeric: bool)
    requires ParseEntries(ev, numeric).Ok?
    ensures ev == UnparseEntries(ParseEntries(ev, numeric).value, ParseEntries(ev, numeric).rest)
    ensures numeric ==> NumericKeys(ParseEntries(ev, numeric).value)
    decreases |ev|
  {
    hide CStr, Uint32;
    Front(ev);
    if ev[0] != MapEnd {
      FieldsBack(ev[2..]);
      EntriesBack(ParseFields(ev[2..]).rest, numeric);
      assert ParseEntries(ev, numeric).value[1..] == ParseEntries(ParseFields(ev[2..]).rest, numeric).value;
    }
  }

  lemma {:induction false} SetsThere(ss: seq<SetEntry>, rest: seq<Event>)
    requires SetsOk(ss)
    ensures ParseSets(UnparseSets(ss, rest)) == Ok(ss, rest)
  {
    hide NumericKeys, ParseEntries, UnparseEntries;
    if ss == [] {
      Two(MapEnd, MapEnd, rest);
    } else {
      assert ss[0] in ss;
      SetsThere(ss[1..], rest);
      EntriesThere(ss[0].attrs, true, UnparseSets(ss[1..], rest));
      Two(Scalar(ss[0].key), MapStart, UnparseEntries(ss[0].attrs, UnparseSets(ss[1..], rest)));
      assert ss == [SetEntry(ss[0].key, ss[0].attrs)] + ss[1..];
    }
  }

  lemma {:induction false} SetsBack(ev: seq<Event>)
    requires ParseSets(ev).Ok?
    ensures ev == UnparseSets(ParseSets(ev).value, ParseSets(ev).rest) && SetsOk(ParseSets(ev).value)
    decreases |ev|
  {
    hide NumericKeys, ParseEntries, UnparseEntries;
    Front(ev);
    if ev[0] != MapEnd {
      EntriesBack(ev[2..], true);
      SetsBack(ParseEntries(ev[2..], true).rest);
      assert ParseSets(ev).value[1..] == ParseSets(ParseEntries(ev[2..], true).rest).value;
    }
  }

  lemma TopThere(t: Top, rest: seq<Event>)
    requires TopOk(t)
    ensures ParseTop(UnparseTop(t, rest)) == Ok(t, rest)
  {
    hide CStr, SetsOk, ParseEntries, UnparseEntries, ParseSets, UnparseSets;
    match t
    case Operations(key, es) =>
      EntriesThere(es, false, rest);
      Two(Scalar(key), MapStart, UnparseEntries(es, rest));
    case McastGroups(key, es) =>
      EntriesThere(es, false, rest);
      Two(Scalar(key), MapStart, UnparseEntries(es, rest));
    case AttributeSets(key, ss) =>
      SetsThere(ss, rest);
      Two(Scalar(key), MapStart, UnparseSets(ss, rest));
    case Plain(key, value) =>
      Two(Scalar(key), Scalar(value), rest);
  }

  lemma TopBack(ev: seq<Event>)
    requires ev != [] && ev[0].Scalar? && ParseTop(ev).Ok?
    ensures ev == UnparseTop(ParseTop(ev).value, ParseTop(ev).rest) && TopOk(ParseTop(ev).value)
  {
    hide CStr, SetsOk, ParseEntries, UnparseEntries, ParseSets, UnparseSets;
    Front(ev);
    match ParseTop(ev).value
    case Operations(_, _) => EntriesBack(ev[2..], false);
    case McastGroups(_, _) => EntriesBack(ev[2..], false);
    case AttributeSets(_, _) => SetsBack(ev[2..]);
    case Plain(_, _) =>
  }

  lemma TopStarts(t: Top, rest: seq<Event>)
    ensures UnparseTop(t, rest) != [] && UnparseTop(t, rest)[0] == Scalar(t.key)
  {
  }

  lemma {:induction false} TopsThere(ts: seq<Top>, rest: seq<Event>)
    requires DocOk(ts)
    ensures ParseTops(UnparseTops(ts, rest)) == Ok(ts, rest)
  {
    if ts == [] {
      Two(MapEnd, MapEnd, rest);
    } else {
      hide TopOk, ParseTop, UnparseTop;
      assert ts[0] in ts;
      TopsThere(ts[1..], rest);
      TopThere(ts[0], UnparseTops(ts[1..], rest));
      TopStarts(ts[0], UnparseTops(ts[1..], rest));
      assert ts == [ts[0]] + ts[1..];
    }
  }

  lemma {:induction false} TopsBack(ev: seq<Event>)
    requires ParseTops(ev).Ok?
    ensures ev == UnparseTops(ParseTops(ev).value, ParseTops(ev).rest) && DocOk(ParseTops(ev).value)
    decreases |ev|
  {
    hide TopOk, ParseTop, UnparseTop;
    Front(ev);
    if ev[0] != MapEnd {
      TopBack(ev);
      TopsBack(ParseTop(ev).rest);
      assert ParseTops(ev).value[1..] == ParseTops(ParseTop(ev).rest).value;
    }
  }

  /** A file is accepted with document `ts`, leaving `rest` unread behind the end of the top mapping,
      exactly when it is a well-formed `ts` written in front of `rest`. */
  lemma ParsesExactly(ev: seq<Event>, ts: seq<Top>, rest: seq<Event>)
    ensures ParseDoc(ev) == Ok(ts, rest) <==> DocOk(ts) && ev == UnparseDoc(ts, rest)
  {
    hide DocOk, ParseTops, UnparseTops;
    var head := [StreamStart, DocStart, MapStart];
    if ParseDoc(ev) == Ok(ts, rest) {
      TopsBack(ev[3..]);
      assert ev == head + ev[3..];
    }
    if DocOk(ts) && ev == UnparseDoc(ts, rest) {
      TopsThere(ts, rest);
      assert ev[3..] == UnparseTops(ts, rest);
    }
  }
}
