/** Parsing with a cache that parsers with different settings share. */
module ParseCaches {
  import opened Options
  import opened Schedules
  import opened SpecTexts

  // ----- settings -----

  /** The parse options; rest stands for those that only affect how single items are read. */
  datatype Flags = Flags(second: bool, minute: bool, hour: bool, dom: bool, month: bool, dow: bool,
                         secondOptional: bool, dowOptional: bool, year: bool, yearOptional: bool,
                         descriptor: bool, hash: bool, rest: int)

  /** Everything parse reads of a parser but the hash key. */
  datatype Plain = Plain(flags: Flags, minEveryInterval: int, maxSearchYears: int) {
    /** What is left of it once the fields have been put in their places. */
    function ItemSettings(): Core { Core(flags.rest, minEveryInterval, maxSearchYears) }
  }

  datatype Core = Core(rest: int, minEveryInterval: int, maxSearchYears: int)

  datatype Settings = Settings(plain: Plain, hashKey: string)

  datatype CacheKey = CacheKey(spec: string, hashKey: string, plain: Plain)

  /** cacheKey */
  function KeyOf(p: Settings, spec: string): CacheKey {
    CacheKey(spec, if ContainsHash(Fields(spec)) then p.hashKey else "", p.plain)
  }

  // ----- which fields a spec has -----

  const DEFAULTS := ["0", "0", "0", "*", "*", "*"]

  function Places(o: Flags): (r: seq<bool>)
    ensures |r| == 6
  {
    [o.second, o.minute, o.hour, o.dom, o.month, o.dow]
  }

  /** countConfiguredFields, from place i on */
  function CountFrom(o: Flags, i: nat): nat
    requires i <= 6
    decreases 6 - i
  {
    if i == 6 then 0 else (if Places(o)[i] then 1 else 0) + CountFrom(o, i + 1)
  }

  /** processOptionalFlags */
  function ProcessOptional(o: Flags): Option<(Flags, nat)> {
    if o.secondOptional && o.dowOptional then None
    else Some((o.(second := o.second || o.secondOptional, dow := o.dow || o.dowOptional),
               if o.secondOptional || o.dowOptional then 1 else 0))
  }

  /** The last loop of normalizeFields, from place i on. */
  function Expand(o: Flags, fields: seq<string>, i: nat): seq<string>
    requires i <= 6 && |fields| == CountFrom(o, i)
    decreases 6 - i
  {
    if i == 6 then []
    else if Places(o)[i] then [fields[0]] + Expand(o, fields[1..], i + 1)
    else [DEFAULTS[i]] + Expand(o, fields, i + 1)
  }

  /** normalizeFields */
  function NormalizeFields(fields: seq<string>, o: Flags): Option<seq<string>> {
    var processed := ProcessOptional(o);
    if processed.None? then None
    else
      var (flags, optionals) := processed.value;
      var most := CountFrom(flags, 0);
      var least := most - optionals;
      if |fields| < least || |fields| > most then None
      else if least < most && |fields| == least then
        Some(Expand(flags, if o.dowOptional then fields + ["*"] else ["0"] + fields, 0))
      else Some(Expand(flags, fields, 0))
  }

  /** extractYearField and extractOptionalYearField: the other fields and the year field. */
  function ExtractYear(fields: seq<string>, o: Flags, looksLikeYear: string -> bool): Option<(seq<string>, string)> {
    if !o.year && !o.yearOptional then Some((fields, ""))
    else if ProcessOptional(o).None? then None
    else
      var (flags, optionals) := ProcessOptional(o).value;
      var most := CountFrom(flags, 0);
      var least := most - optionals;
      var n := |fields|;
      if o.year then
        if n < least + 1 || n > most + 1 then None
        else if o.secondOptional && n == least + 1 && !looksLikeYear(fields[n - 1]) then Some((fields, "*"))
        else Some((fields[..n - 1], fields[n - 1]))
      else if n < least || n > most + 1 then None
      else if n > most then
        if looksLikeYear(fields[n - 1]) then Some((fields[..n - 1], fields[n - 1])) else None
      else if n > 0 && looksLikeYear(fields[n - 1]) && n > least then Some((fields[..n - 1], fields[n - 1]))
      else Some((fields, "*"))
  }

  /** Normalized fields are fields of the spec or defaults. */
  lemma {:induction false} ExpandedFrom(o: Flags, fields: seq<string>, i: nat, f: string)
    requires i <= 6 && |fields| == CountFrom(o, i) && f in Expand(o, fields, i)
    ensures f in fields || f in DEFAULTS
    decreases 6 - i
  {
    hide Places;
    if i >= 6 {
    } else {
      if Places(o)[i] {
        if f != fields[0] {
          ExpandedFrom(o, fields[1..], i + 1, f);
        }
      } else if f != DEFAULTS[i] {
        ExpandedFrom(o, fields, i + 1, f);
      }
    }
  }

  lemma NormalizedFrom(fields: seq<string>, o: Flags, f: string)
    requires NormalizeFields(fields, o).Some? && f in NormalizeFields(fields, o).value
    ensures f in fields || f == "0" || f == "*"
  {
    hide Expand, CountFrom;
    var (flags, optionals) := ProcessOptional(o).value;
    var most := CountFrom(flags, 0);
    var all := if most - optionals < most && |fields| == most - optionals
               then if o.dowOptional then fields + ["*"] else ["0"] + fields else fields;
    ExpandedFrom(flags, all, 0, f);
  }

  lemma YearLeaves(fields: seq<string>, o: Flags, looksLikeYear: string -> bool, f: string)
    requires ExtractYear(fields, o, looksLikeYear).Some? && f in ExtractYear(fields, o, looksLikeYear).value.0
    ensures f in fields
  {
    hide CountFrom;
  }

  // ----- parse -----

  datatype Item = Bits(bits: bv64) | DomItem(dom: DomConstraint) | DowItem(dow: DowConstraint) | BadItem(reason: string)

  datatype Outcome =
    | SpecOf(schedule: SpecSchedule, zone: string)
    | Triggered
    | Every(seconds: int, aligned: bool)
    | Failed(reason: string)

  /** The parts of parse that cannot see the hash key, as arbitrary functions, and the one for hashed items that can. */
  datatype Grammar = Grammar(
    zoneIsValid: string -> bool,
    looksLikeYear: string -> bool,
    descriptor: (string, string, Core) -> Outcome,
    plainItem: (string, int, Core) -> Item,
    hashedItem: (string, int, Core, string) -> Item,
    finish: (seq<seq<Item>>, seq<string>, string, string, Core) -> Outcome)

  function IndexOf(s: string, c: char): (i: int)
    ensures i == -1 || (0 <= i < |s| && s[i] == c)
  {
    if s == [] then -1
    else if s[0] == c then 0
    else var rest := IndexOf(s[1..], c); if rest == -1 then -1 else rest + 1
  }

  predicate HasPrefix(s: string, prefix: string) { prefix <= s }

  /** parseTimezone: the name and what follows it. */
  function SplitZone(g: Grammar, spec: string): Option<(string, string)> {
    if !HasPrefix(spec, "TZ=") && !HasPrefix(spec, "CRON_TZ=") then Some(("Local", spec))
    else
      var i := IndexOf(spec, ' ');
      if i == -1 then None
      else
        var eq := IndexOf(spec, '=');
        var name := if eq + 1 <= i then Unquoted(spec[eq + 1..i]) else "";
        var rest := TrimSpace(spec[i..]);
        if !g.zoneIsValid(name) || rest == "" then None else Some((name, rest))
  }

  /** Matching quotes around a zone name are dropped. */
  function Unquoted(name: string): string {
    var n := |name|;
    if n >= 2 && name[0] == name[n - 1] && (name[0] == '"' || name[0] == '\'') then name[1..n - 1] else name
  }

  lemma ZoneLeaves(g: Grammar, spec: string, f: string)
    requires SplitZone(g, spec).Some? && f in Fields(SplitZone(g, spec).value.1)
    ensures f in Fields(spec)
  {
    hide Fields, IsSpace, TrimSpace;
    if HasPrefix(spec, "TZ=") || HasPrefix(spec, "CRON_TZ=") {
      var i := IndexOf(spec, ' ');
      BlankIsSpace();
      FieldsOfRest(spec, i, f);
    }
  }

  lemma BlankIsSpace()
    ensures IsSpace(' ')
  {
  }

  /** getRangeWithHash and its callers, for one item. */
  function ReadItem(g: Grammar, p: Settings, item: string, place: int): Item {
    if HasPrefixH(item) then g.hashedItem(item, place, p.plain.ItemSettings(), p.hashKey)
    else g.plainItem(item, place, p.plain.ItemSettings())
  }

  function ReadItems(g: Grammar, p: Settings, items: seq<string>, place: int): seq<Item> {
    if items == [] then [] else [ReadItem(g, p, items[0], place)] + ReadItems(g, p, items[1..], place)
  }

  function ReadFields(g: Grammar, p: Settings, fields: seq<string>, place: int): seq<seq<Item>>
    decreases |fields|
  {
    if fields == [] then []
    else [ReadItems(g, p, ItemsFrom(fields[0], 0), place)] + ReadFields(g, p, fields[1..], place + 1)
  }

  const MAX_SPEC_LENGTH := 1024

  /** parse */
  function ParseAfresh(g: Grammar, p: Settings, spec: string): Outcome {
    if |spec| == 0 then Failed("empty spec")
    else if |spec| > MAX_SPEC_LENGTH then Failed("spec too long")
    else
      var split := SplitZone(g, spec);
      if split.None? then Failed("bad timezone")
      else
        var (zone, rest) := split.value;
        if HasPrefix(rest, "@") then
          if p.plain.flags.descriptor then g.descriptor(rest, zone, p.plain.ItemSettings())
          else Failed("no descriptors")
        else ParseFields(g, p, Fields(rest), zone)
  }

  function ParseFields(g: Grammar, p: Settings, all: seq<string>, zone: string): Outcome {
    var flags := p.plain.flags;
    var parts := ExtractYear(all, flags, g.looksLikeYear);
    if parts.None? then Failed("bad number of fields")
    else
      var (others, yearField) := parts.value;
      var fields := NormalizeFields(others, flags);
      if fields.None? then Failed("bad number of fields")
      else if ContainsHash(fields.value) && !flags.hash then Failed("hash option required")
      else if ContainsHash(fields.value) && p.hashKey == "" then Failed("hash key required")
      else g.finish(ReadFields(g, p, fields.value, 0), fields.value, yearField, zone, p.plain.ItemSettings())
  }

  // ----- the hash key matters only to hash items -----

  lemma {:induction false} ItemsIgnoreKey(g: Grammar, p: Settings, key: string, items: seq<string>, place: int)
    requires forall i :: 0 <= i < |items| ==> !HasPrefixH(items[i])
    ensures ReadItems(g, p, items, place) == ReadItems(g, p.(hashKey := key), items, place)
    decreases |items|
  {
    if items == [] {
    } else {
      ItemsIgnoreKey(g, p, key, items[1..], place);
    }
  }

  lemma {:induction false} FieldsIgnoreKey(g: Grammar, p: Settings, key: string, fields: seq<string>, place: int)
    requires !ContainsHash(fields)
    ensures ReadFields(g, p, fields, place) == ReadFields(g, p.(hashKey := key), fields, place)
    decreases |fields|
  {
    hide HasPrefixH, HasHashItem;
    if fields == [] {
    } else {
      var items := ItemsFrom(fields[0], 0);
      forall i | 0 <= i < |items|
        ensures !HasPrefixH(items[i])
      {
        assert !HasHashItem(fields[0]);
        ItemsWithoutHash(fields[0], 0, items[i]);
      }
      ItemsIgnoreKey(g, p, key, items, place);
      assert !ContainsHash(fields[1..]);
      FieldsIgnoreKey(g, p, key, fields[1..], place + 1);
    }
  }

  /** Fields without a hash item are parsed alike under every key. */
  lemma KeyDoesNotMatter(g: Grammar, p: Settings, key: string, spec: string)
    requires !ContainsHash(Fields(spec))
    ensures ParseAfresh(g, p, spec) == ParseAfresh(g, p.(hashKey := key), spec)
  {
    hide Fields, NormalizeFields, ExtractYear, SplitZone, ReadFields, HasHashItem;
    var split := SplitZone(g, spec);
    if split.Some? {
      var all := Fields(split.value.1);
      var parts := ExtractYear(all, p.plain.flags, g.looksLikeYear);
      if parts.Some? {
        var fields := NormalizeFields(parts.value.0, p.plain.flags);
        if fields.Some? {
          NormalizedHaveNoHash(g, p, spec, fields.value);
          FieldsIgnoreKey(g, p, key, fields.value, 0);
        }
      }
    }
  }

  lemma NormalizedHaveNoHash(g: Grammar, p: Settings, spec: string, fields: seq<string>)
    requires !ContainsHash(Fields(spec)) && SplitZone(g, spec).Some?
    requires var parts := ExtractYear(Fields(SplitZone(g, spec).value.1), p.plain.flags, g.looksLikeYear);
             parts.Some? && NormalizeFields(parts.value.0, p.plain.flags) == Some(fields)
    ensures !ContainsHash(fields)
  {
    hide Fields, NormalizeFields, ExtractYear, SplitZone, HasHashItem;
    var all := Fields(SplitZone(g, spec).value.1);
    var others := ExtractYear(all, p.plain.flags, g.looksLikeYear).value.0;
    DefaultsHaveNoHash();
    forall i | 0 <= i < |fields|
      ensures !HasHashItem(fields[i])
    {
      var f := fields[i];
      NormalizedFrom(others, p.plain.flags, f);
      if f in others {
        YearLeaves(all, p.plain.flags, g.looksLikeYear, f);
        ZoneLeaves(g, spec, f);
        var k :| 0 <= k < |Fields(spec)| && Fields(spec)[k] == f;
      }
    }
  }

  lemma DefaultsHaveNoHash()
    ensures !HasHashItem("0") && !HasHashItem("*")
  {
  }

  /** Parsers that look for the same cache entry parse the spec alike. */
  lemma SameKeySameOutcome(g: Grammar, p: Settings, q: Settings, spec: string, other: string)
    requires KeyOf(p, spec) == KeyOf(q, other)
    ensures spec == other && ParseAfresh(g, p, spec) == ParseAfresh(g, q, other)
  {
    hide ParseAfresh, ContainsHash, Fields;
    if !ContainsHash(Fields(spec)) {
      KeyDoesNotMatter(g, p, q.hashKey, spec);
      assert p.(hashKey := q.hashKey) == q;
    } else {
      assert p == q;
    }
  }

  // ----- the cache -----

  /** Every entry is what any parser that finds it would compute. */
  ghost predicate Honest(g: Grammar, entries: map<CacheKey, Outcome>) {
    forall p, spec :: KeyOf(p, spec) in entries ==> entries[KeyOf(p, spec)] == ParseAfresh(g, p, spec)
  }

  lemma StaysHonest(g: Grammar, entries: map<CacheKey, Outcome>, p: Settings, spec: string)
    requires Honest(g, entries)
    ensures Honest(g, entries[KeyOf(p, spec) := ParseAfresh(g, p, spec)])
  {
    hide ParseAfresh, KeyOf;
    var after := entries[KeyOf(p, spec) := ParseAfresh(g, p, spec)];
    forall q, other | KeyOf(q, other) in after
      ensures after[KeyOf(q, other)] == ParseAfresh(g, q, other)
    {
      if KeyOf(q, other) == KeyOf(p, spec) {
        SameKeySameOutcome(g, q, p, other, spec);
      }
    }
  }

  class ParseCache {
    var entries: map<CacheKey, Outcome>

    constructor ()
      ensures entries == map[]
    {
      entries := map[];
    }
  }

  /** A parser value; parsers derived from one with a cache share it. */
  datatype Parser = Parser(settings: Settings, cache: ParseCache?) {
    /** Parse: the outcome is that of a parse with this parser's own settings, cached or not. */
    method Parse(g: Grammar, spec: string) returns (r: Outcome)
      requires cache != null ==> Honest(g, cache.entries)
      modifies if cache != null then {cache} else {}
      ensures r == ParseAfresh(g, settings, spec)
      ensures cache != null ==> Honest(g, cache.entries)
      ensures cache != null ==> cache.entries == old(cache.entries)[KeyOf(settings, spec) := r]
    {
      hide ParseAfresh, KeyOf;
      if cache != null {
        if KeyOf(settings, spec) in cache.entries {
          return cache.entries[KeyOf(settings, spec)];
        }
      }
      r := ParseAfresh(g, settings, spec);
      if cache != null {
        StaysHonest(g, cache.entries, settings, spec);
        cache.entries := cache.entries[KeyOf(settings, spec) := r];
      }
    }
  }

  // ----- calls that overlap -----

  /** Where a call of Parse is: about to look into the cache, parsing on its own, or done. */
  datatype Call = Looking(p: Settings, spec: string) | Parsing(p: Settings, spec: string)
                | Returned(p: Settings, spec: string, outcome: Outcome)

  datatype Moment = Moment(entries: map<CacheKey, Outcome>, calls: map<nat, Call>)

  datatype Event = Begin(call: nat, p: Settings, spec: string) | Load(call: nat) | Store(call: nat)

  ghost predicate Step(g: Grammar, a: Moment, e: Event, b: Moment) {
    match e
    case Begin(c, p, spec) =>
      c !in a.calls && b == a.(calls := a.calls[c := Looking(p, spec)])
    case Load(c) =>
      && c in a.calls && a.calls[c].Looking?
      && var call := a.calls[c];
         var key := KeyOf(call.p, call.spec);
         b == a.(calls := a.calls[c := if key in a.entries then Returned(call.p, call.spec, a.entries[key])
                                       else Parsing(call.p, call.spec)])
    case Store(c) =>
      && c in a.calls && a.calls[c].Parsing?
      && var call := a.calls[c];
         var r := ParseAfresh(g, call.p, call.spec);
         b == Moment(a.entries[KeyOf(call.p, call.spec) := r], a.calls[c := Returned(call.p, call.spec, r)])
  }

  /** Every call that has returned gave what a parse with its own settings gives. */
  ghost predicate CallsHonest(g: Grammar, calls: map<nat, Call>) {
    forall c :: c in calls && calls[c].Returned? ==> calls[c].outcome == ParseAfresh(g, calls[c].p, calls[c].spec)
  }

  lemma StepStaysHonest(g: Grammar, a: Moment, e: Event, b: Moment)
    requires Honest(g, a.entries) && CallsHonest(g, a.calls) && Step(g, a, e, b)
    ensures Honest(g, b.entries) && CallsHonest(g, b.calls)
  {
    hide ParseAfresh, KeyOf;
    if e.Store? {
      StaysHonest(g, a.entries, a.calls[e.call].p, a.calls[e.call].spec);
    }
  }

  /** However calls by parsers with different settings overlap, each returns a fresh parse with its own settings. */
  lemma {:induction false} EveryCallIsFresh(g: Grammar, moments: seq<Moment>, events: seq<Event>, i: nat)
    requires |moments| == |events| + 1 && moments[0] == Moment(map[], map[]) && i < |moments|
    requires forall k :: 0 <= k < |events| ==> Step(g, moments[k], events[k], moments[k + 1])
    ensures CallsHonest(g, moments[i].calls) && Honest(g, moments[i].entries)
    decreases i
  {
    hide Step, ParseAfresh, KeyOf;
    if i == 0 {
    } else {
      EveryCallIsFresh(g, moments, events, i - 1);
      assert Step(g, moments[i - 1], events[i - 1], moments[i]);
      StepStaysHonest(g, moments[i - 1], events[i - 1], moments[i]);
    }
  }
}
