/**
  The sleep log store: two most-recent-first lists (overnight sleep records and
  sleepiness ratings), loaded once from a key-value store and written back in
  full after every change.
*/
module SleepService {

  import opened Wrappers
  import opened Calendar
  import opened JsText
  import opened JsDate
  import opened OvernightSleepData

  /** A sleepiness rating on the Stanford scale, with the time it was logged. */
  datatype SleepinessRecord = SleepinessRecord(loggedValue: int, loggedAt: Date, id: string)

  /** `new StanfordSleepinessData(value, loggedAt)`: the identifier comes from the base class. */
  function NewRating(value: int, loggedAt: Date, stamp: Stamp): (r: SleepinessRecord)
    ensures r.loggedValue == value && r.loggedAt == loggedAt && r.id == stamp.id
  {
    SleepinessRecord(value, loggedAt, stamp.id)
  }

  // ---------------------------------------------------------------------------
  // The key-value store

  /** The structured values the store holds. Numbers are integers here. */
  datatype Json =
    | JNull
    | JBool(b: bool)
    | JNum(n: int)
    | JStr(s: string)
    | JArr(items: seq<Json>)
    | JObj(fields: map<string, Json>)

  /** The calls a store accepts; a store is made with the set of calls that throw. */
  datatype StorageCall = CreateCall | GetCall(key: string) | SetCall(key: string)

  const SleepStorageKey: string := "sleepData_v1"
  const SleepinessStorageKey: string := "sleepinessData_v1"

  /** What `get(key)` gives: the stored value, or null for a key never set. */
  function Lookup(entries: map<string, Json>, key: string): Json {
    if key in entries then entries[key] else JNull
  }

  class KeyValueStorage {
    var entries: map<string, Json>
    const failing: set<StorageCall>

    constructor (entries: map<string, Json>, failing: set<StorageCall>)
      ensures this.entries == entries && this.failing == failing
    {
      this.entries := entries;
      this.failing := failing;
    }

    /** `create()`. */
    method Create() returns (ok: bool)
      ensures ok <==> CreateCall !in failing
    {
      ok := CreateCall !in failing;
    }

    /** `get(key)`. */
    method Get(key: string) returns (r: Outcome<Json>)
      ensures GetCall(key) in failing ==> r == Threw
      ensures GetCall(key) !in failing ==> r == Ok(Lookup(entries, key))
    {
      r := if GetCall(key) in failing then Threw else Ok(Lookup(entries, key));
    }

    /** `set(key, value)`: replaces the value under key, unless the call throws. */
    method Set(key: string, value: Json) returns (ok: bool)
      modifies this
      ensures ok <==> SetCall(key) !in failing
      ensures entries == if ok then old(entries)[key := value] else old(entries)
    {
      ok := SetCall(key) !in failing;
      if ok {
        entries := entries[key := value];
      }
    }
  }

  // ---------------------------------------------------------------------------
  // Reading stored dates

  /** The separators of the custom stored layout `YYYY-MM-DDTHH:mm`. */
  const DateSeparators: set<char> := {'-', 'T', ':'}

  /**
    `parseDateFromStorage` for a string: the standard parse, and only when that
    is NaN, the custom layout (at least five parts split on `-`, `T` and `:`,
    month counted from 1, seconds ignored). With fewer parts the invalid date
    is returned as it is.
  */
  function ParseDateString(s: string): (d: Date)
    ensures DateFromString(s).ValidDate? ==> d == DateFromString(s)
    ensures DateFromString(s).InvalidDate? && |Split(s, DateSeparators)| < 5 ==> d == InvalidDate
  {
    var primary := DateFromString(s);
    if primary.ValidDate? then primary
    else
      var parts := Split(s, DateSeparators);
      if |parts| >= 5 then
        NewDate(ParseInt(parts[0]), Minus(ParseInt(parts[1]), 1), ParseInt(parts[2]),
                ParseInt(parts[3]), ParseInt(parts[4]), Some(0))
      else primary
  }

  /**
    `parseDateFromStorage(value)` for whatever value a stored item holds (`None`
    when the property is missing). `new Date` of a non-string never needs the
    fallback unless it is NaN, and then calling `split` on it throws.
  */
  function ParseDateFromStorage(v: Option<Json>): Outcome<Date> {
    match v
    case None => Threw
    case Some(JNull) => Ok(ValidDate(0))
    case Some(JBool(b)) => Ok(ValidDate(if b then 1 else 0))
    case Some(JNum(n)) => if TimeClip(n).ValidDate? then Ok(TimeClip(n)) else Threw
    case Some(JStr(s)) => Ok(ParseDateString(s))
    case Some(_) => Threw
  }

  /** What `toISOString` writes is read back as the same date. */
  lemma ParseStoredIso(t: TimeValue)
    ensures ParseDateFromStorage(Some(JStr(ToISOString(t)))) == Ok(ValidDate(t))
  {
    ParseToISOString(t);
  }

  /** The dashed custom layout `Y-M-DTH:MI`. */
  function CustomLayout(y: string, mo: string, d: string, h: string, mi: string): string {
    y + ("-" + (mo + ("-" + (d + ("T" + (h + (":" + mi)))))))
  }

  /**
    A string in the custom layout whose standard parse fails is read through
    its five parts, each with `parseInt` (which reads a part of digits as its
    decimal value), the month counted from 1.
  */
  lemma ParseCustomLayout(y: string, mo: string, d: string, h: string, mi: string)
    requires AllDigits(y) && AllDigits(mo) && AllDigits(d) && AllDigits(h) && AllDigits(mi)
    requires DateFromString(CustomLayout(y, mo, d, h, mi)).InvalidDate?
    ensures ParseDateString(CustomLayout(y, mo, d, h, mi))
            == NewDate(ParseInt(y), Minus(ParseInt(mo), 1), ParseInt(d), ParseInt(h), ParseInt(mi), Some(0))
  {
    DigitsFree(y);
    DigitsFree(mo);
    DigitsFree(d);
    DigitsFree(h);
    DigitsFree(mi);
    SplitCustomLayout(y, mo, d, h, mi);
    FallbackParts(CustomLayout(y, mo, d, h, mi), [y, mo, d, h, mi]);
  }

  /** When the standard parse fails, five or more parts are read as year, month, day, hours and minutes. */
  lemma FallbackParts(s: string, parts: seq<string>)
    requires DateFromString(s).InvalidDate? && Split(s, DateSeparators) == parts && |parts| >= 5
    ensures ParseDateString(s) == NewDate(ParseInt(parts[0]), Minus(ParseInt(parts[1]), 1), ParseInt(parts[2]),
                                          ParseInt(parts[3]), ParseInt(parts[4]), Some(0))
  {
  }

  /** The custom layout splits into its five parts. */
  lemma SplitCustomLayout(y: string, mo: string, d: string, h: string, mi: string)
    requires NoSeparator(y, DateSeparators) && NoSeparator(mo, DateSeparators) && NoSeparator(d, DateSeparators)
    requires NoSeparator(h, DateSeparators) && NoSeparator(mi, DateSeparators)
    ensures Split(CustomLayout(y, mo, d, h, mi), DateSeparators) == [y, mo, d, h, mi]
  {
    SplitNone(mi, DateSeparators);
    SplitAfter(h, ':', mi);
    SplitAfter(d, 'T', h + (":" + mi));
    SplitAfter(mo, '-', d + ("T" + (h + (":" + mi))));
    SplitAfter(y, '-', mo + ("-" + (d + ("T" + (h + (":" + mi))))));
  }

  /** A separator-free part, a separator and the rest: the part splits off first. */
  lemma SplitAfter(a: string, c: char, b: string)
    requires NoSeparator(a, DateSeparators) && c in DateSeparators
    ensures Split(a + ([c] + b), DateSeparators) == [a] + Split(b, DateSeparators)
  {
    SplitFirst(a, c, b, DateSeparators);
    assert a + [c] + b == a + ([c] + b);
  }

  lemma DigitsFree(s: string)
    requires AllDigits(s)
    ensures NoSeparator(s, DateSeparators)
  {
  }

  // ---------------------------------------------------------------------------
  // Writing the lists

  /** One stored night: its three dates as `toISOString` writes them, and its identifier. */
  function NightJson(r: OvernightRecord): Json
    requires NightWritable(r)
  {
    JObj(map["sleepStart" := JStr(ToISOString(r.sleepStart.ms)), "sleepEnd" := JStr(ToISOString(r.sleepEnd.ms)),
             "loggedAt" := JStr(ToISOString(r.loggedAt.ms)), "id" := JStr(r.id)])
  }

  /** One stored rating. */
  function RatingJson(r: SleepinessRecord): Json
    requires r.loggedAt.ValidDate?
  {
    JObj(map["loggedValue" := JNum(r.loggedValue), "loggedAt" := JStr(ToISOString(r.loggedAt.ms)), "id" := JStr(r.id)])
  }

  /**
    The overnight list as stored, by `map` over the list in order. `toISOString`
    throws on an invalid date, so one invalid date anywhere throws for the whole list.
  */
  function EncodeNights(rs: seq<OvernightRecord>): (r: Outcome<seq<Json>>)
    ensures r.Ok? <==> NightsWritable(rs)
    ensures r.Ok? ==> |r.value| == |rs| && forall i :: 0 <= i < |rs| ==> r.value[i] == NightJson(rs[i])
  {
    if NightsWritable(rs) then Ok(seq(|rs|, i requires 0 <= i < |rs| && NightWritable(rs[i]) => NightJson(rs[i])))
    else Threw
  }

  function EncodeRatings(rs: seq<SleepinessRecord>): (r: Outcome<seq<Json>>)
    ensures r.Ok? <==> RatingsWritable(rs)
    ensures r.Ok? ==> |r.value| == |rs| && forall i :: 0 <= i < |rs| ==> r.value[i] == RatingJson(rs[i])
  {
    if RatingsWritable(rs) then Ok(seq(|rs|, i requires 0 <= i < |rs| && rs[i].loggedAt.ValidDate? => RatingJson(rs[i])))
    else Threw
  }

  /** Every date of the record can be written. */
  predicate NightWritable(r: OvernightRecord) {
    r.sleepStart.ValidDate? && r.sleepEnd.ValidDate? && r.loggedAt.ValidDate?
  }

  predicate NightsWritable(rs: seq<OvernightRecord>) {
    forall i :: 0 <= i < |rs| ==> NightWritable(rs[i])
  }

  /** A rating can be stored when its time is a valid date. */
  predicate RatingWritable(r: SleepinessRecord) {
    r.loggedAt.ValidDate?
  }

  predicate RatingsWritable(rs: seq<SleepinessRecord>) {
    forall i :: 0 <= i < |rs| ==> rs[i].loggedAt.ValidDate?
  }

  /**
    The store after `saveDataToStorage`: both lists are prepared first, so an
    invalid date anywhere writes nothing; otherwise the overnight list is
    written, then the ratings, and a throwing write stops there.
  */
  function SavedEntries(entries: map<string, Json>, failing: set<StorageCall>,
                        nights: seq<OvernightRecord>, ratings: seq<SleepinessRecord>): (e: map<string, Json>)
    ensures EncodeNights(nights).Threw? || EncodeRatings(ratings).Threw? ==> e == entries
    ensures forall k :: k != SleepStorageKey && k != SleepinessStorageKey ==> Lookup(e, k) == Lookup(entries, k)
  {
    match (EncodeNights(nights), EncodeRatings(ratings))
    case (Ok(n), Ok(r)) =>
      if SetCall(SleepStorageKey) in failing then entries
      else if SetCall(SleepinessStorageKey) in failing then entries[SleepStorageKey := JArr(n)]
      else entries[SleepStorageKey := JArr(n)][SleepinessStorageKey := JArr(r)]
    case _ => entries
  }

  // ---------------------------------------------------------------------------
  // Reading the lists

  /**
    `item.name`: reading a property of null throws; a property an item does not
    have is undefined (`None`).
  */
  function Property(item: Json, name: string): Outcome<Option<Json>> {
    match item
    case JNull => Threw
    case JObj(fields) => Ok(if name in fields then Some(fields[name]) else None)
    case _ => Ok(None)
  }

  /** The two dates of one stored night, or the exception that skips it. */
  function DecodeNight(item: Json): Outcome<(Date, Date)> {
    var start :- Property(item, "sleepStart");
    var s :- ParseDateFromStorage(start);
    var end :- Property(item, "sleepEnd");
    var e :- ParseDateFromStorage(end);
    Ok((s, e))
  }

  /** The value and time of one stored rating, or the exception that skips it. */
  function DecodeRating(item: Json): Outcome<(int, Date)> {
    var at :- Property(item, "loggedAt");
    var t :- ParseDateFromStorage(at);
    var v :- Property(item, "loggedValue");
    match v
    case Some(JNum(n)) => Ok((n, t))
    case _ => Threw
  }

  /** The records of one stored item: one record, or none when it throws. */
  function DecodedNight(item: Json, next: nat, mint: nat -> Stamp): seq<OvernightRecord> {
    match DecodeNight(item)
    case Threw => []
    case Ok((s, e)) => [NewOvernight(s, e, mint(next))]
  }

  function DecodedRating(item: Json, next: nat, mint: nat -> Stamp): seq<SleepinessRecord> {
    match DecodeRating(item)
    case Threw => []
    case Ok((v, t)) => [NewRating(v, t, mint(next))]
  }

  /**
    Loading a stored array item by item: `decode(item, k)` is the record made
    from one item with stamp number k (none when the item throws), and each
    record made takes the next stamp number.
  */
  function Collect<T>(items: seq<Json>, next: nat, decode: (Json, nat) -> seq<T>): seq<T>
    decreases |items|, 2
  {
    if items == [] then [] else CollectFirst(items, next, decode)
  }

  /**
    A non-empty array is its first item followed by the rest. (The empty case,
    this split and the step for one item are separate functions, so that a
    proof sees an item's decoding only where it asks for it.)
  */
  function CollectFirst<T>(items: seq<Json>, next: nat, decode: (Json, nat) -> seq<T>): seq<T>
    requires items != []
    decreases |items|, 1
  {
    CollectItem(items[0], items[1..], next, decode)
  }

  /** The records made from one item, then those loaded from the items after it. */
  function CollectItem<T>(item: Json, rest: seq<Json>, next: nat, decode: (Json, nat) -> seq<T>): seq<T>
    decreases |rest| + 1, 0
  {
    var first := decode(item, next);
    first + Collect(rest, next + |first|, decode)
  }

  /** One step of loading a non-empty array. */
  lemma CollectUnfold<T>(items: seq<Json>, next: nat, decode: (Json, nat) -> seq<T>)
    requires items != []
    ensures Collect(items, next, decode)
            == decode(items[0], next) + Collect(items[1..], next + |decode(items[0], next)|, decode)
  {
    assert Collect(items, next, decode) == CollectItem(items[0], items[1..], next, decode);
  }

  /**
    Loading is done item by item in stored order: the items after a skipped
    one still load, and later records follow earlier ones.
  */
  lemma {:induction false} CollectAppend<T>(a: seq<Json>, b: seq<Json>, next: nat, decode: (Json, nat) -> seq<T>)
    ensures Collect(a + b, next, decode) == Collect(a, next, decode) + Collect(b, next + |Collect(a, next, decode)|, decode)
  {
    if a == [] {
      assert a + b == b;
    } else {
      assert (a + b)[0] == a[0] && (a + b)[1..] == a[1..] + b;
      CollectUnfold(a + b, next, decode);
      CollectUnfold(a, next, decode);
      CollectAppend(a[1..], b, next + |decode(a[0], next)|, decode);
    }
  }

  lemma CollectOne<T>(item: Json, next: nat, decode: (Json, nat) -> seq<T>)
    ensures Collect([item], next, decode) == decode(item, next)
  {
    CollectUnfold([item], next, decode);
    assert [item][1..] == [];
  }

  /** When every item gives exactly one record, with the stamp number of its position, those are the records. */
  lemma {:induction false} CollectSingles<T>(items: seq<Json>, next: nat, decode: (Json, nat) -> seq<T>, r: seq<T>)
    requires |r| == |items|
    requires forall i :: 0 <= i < |items| ==> decode(items[i], next + i) == [r[i]]
    ensures Collect(items, next, decode) == r
  {
    if items != [] {
      assert decode(items[0], next + 0) == [r[0]];
      forall i | 0 <= i < |items| - 1
        ensures decode(items[1..][i], next + 1 + i) == [r[1..][i]]
      {
        assert decode(items[i + 1], next + (i + 1)) == [r[i + 1]];
      }
      CollectUnfold(items, next, decode);
      CollectSingles(items[1..], next + 1, decode, r[1..]);
      assert r == [r[0]] + r[1..];
    }
  }

  function NightDecoder(mint: nat -> Stamp): (Json, nat) -> seq<OvernightRecord> {
    (item: Json, k: nat) => DecodedNight(item, k, mint)
  }

  function RatingDecoder(mint: nat -> Stamp): (Json, nat) -> seq<SleepinessRecord> {
    (item: Json, k: nat) => DecodedRating(item, k, mint)
  }

  /**
    The records loaded from stored nights, in stored order: an item that throws
    is skipped, and each record made gets the next stamp, starting at `next`.
  */
  function DecodeNights(items: seq<Json>, next: nat, mint: nat -> Stamp): seq<OvernightRecord> {
    Collect(items, next, NightDecoder(mint))
  }

  function DecodeRatings(items: seq<Json>, next: nat, mint: nat -> Stamp): seq<SleepinessRecord> {
    Collect(items, next, RatingDecoder(mint))
  }

  /** `DecodeNights` is `Collect` with the night decoder, as one fact. */
  lemma DecodeNightsIsCollect(items: seq<Json>, next: nat, mint: nat -> Stamp)
    ensures DecodeNights(items, next, mint) == Collect(items, next, NightDecoder(mint))
  {
  }

  lemma DecodeRatingsIsCollect(items: seq<Json>, next: nat, mint: nat -> Stamp)
    ensures DecodeRatings(items, next, mint) == Collect(items, next, RatingDecoder(mint))
  {
  }

  /** The night decoder applied to one item. */
  lemma NightDecoderApply(item: Json, next: nat, mint: nat -> Stamp)
    ensures NightDecoder(mint)(item, next) == DecodedNight(item, next, mint)
  {
  }

  lemma RatingDecoderApply(item: Json, next: nat, mint: nat -> Stamp)
    ensures RatingDecoder(mint)(item, next) == DecodedRating(item, next, mint)
  {
  }

  lemma DecodeNightsAppend(a: seq<Json>, b: seq<Json>, next: nat, mint: nat -> Stamp)
    ensures DecodeNights(a + b, next, mint)
            == DecodeNights(a, next, mint) + DecodeNights(b, next + |DecodeNights(a, next, mint)|, mint)
  {
    DecodeNightsIsCollect(a + b, next, mint);
    DecodeNightsIsCollect(a, next, mint);
    DecodeNightsIsCollect(b, next + |DecodeNights(a, next, mint)|, mint);
    CollectAppend(a, b, next, NightDecoder(mint));
  }

  lemma DecodeRatingsAppend(a: seq<Json>, b: seq<Json>, next: nat, mint: nat -> Stamp)
    ensures DecodeRatings(a + b, next, mint)
            == DecodeRatings(a, next, mint) + DecodeRatings(b, next + |DecodeRatings(a, next, mint)|, mint)
  {
    DecodeRatingsIsCollect(a + b, next, mint);
    DecodeRatingsIsCollect(a, next, mint);
    DecodeRatingsIsCollect(b, next + |DecodeRatings(a, next, mint)|, mint);
    CollectAppend(a, b, next, RatingDecoder(mint));
  }

  lemma AppendAssoc<T>(a: seq<T>, b: seq<T>, c: seq<T>)
    ensures (a + b) + c == a + (b + c)
  {
  }

  /** Loading one more item adds the records made from it, with the next stamp number. */
  lemma CollectStep<T>(before: seq<T>, items: seq<Json>, i: nat, next: nat, decode: (Json, nat) -> seq<T>)
    requires i < |items|
    ensures var done := Collect(items[..i], next, decode);
            var one := Collect([items[i]], next + |done|, decode);
            before + done + one == before + Collect(items[..i + 1], next, decode)
            && |done| + |one| == |Collect(items[..i + 1], next, decode)|
  {
    var done := Collect(items[..i], next, decode);
    var one := Collect([items[i]], next + |done|, decode);
    assert items[..i + 1] == items[..i] + [items[i]];
    CollectAppend(items[..i], [items[i]], next, decode);
    AppendAssoc(before, done, one);
  }

  /** What the nights loop holds after one more item: the records so far, then those made from the item. */
  lemma LoadedNightsStep(before: seq<OvernightRecord>, items: seq<Json>, i: nat, next: nat, mint: nat -> Stamp)
    requires i < |items|
    ensures var done := DecodeNights(items[..i], next, mint);
            var one := DecodeNights([items[i]], next + |done|, mint);
            before + done + one == before + DecodeNights(items[..i + 1], next, mint)
            && |done| + |one| == |DecodeNights(items[..i + 1], next, mint)|
  {
    DecodeNightsIsCollect(items[..i], next, mint);
    DecodeNightsIsCollect(items[..i + 1], next, mint);
    DecodeNightsIsCollect([items[i]], next + |DecodeNights(items[..i], next, mint)|, mint);
    CollectStep(before, items, i, next, NightDecoder(mint));
  }

  /** What the ratings loop holds after one more item. */
  lemma LoadedRatingsStep(before: seq<SleepinessRecord>, items: seq<Json>, i: nat, next: nat, mint: nat -> Stamp)
    requires i < |items|
    ensures var done := DecodeRatings(items[..i], next, mint);
            var one := DecodeRatings([items[i]], next + |done|, mint);
            before + done + one == before + DecodeRatings(items[..i + 1], next, mint)
            && |done| + |one| == |DecodeRatings(items[..i + 1], next, mint)|
  {
    DecodeRatingsIsCollect(items[..i], next, mint);
    DecodeRatingsIsCollect(items[..i + 1], next, mint);
    DecodeRatingsIsCollect([items[i]], next + |DecodeRatings(items[..i], next, mint)|, mint);
    CollectStep(before, items, i, next, RatingDecoder(mint));
  }

  /** The stored value when it is an array; anything else (null included) loads nothing. */
  function StoredItems(v: Json): seq<Json> {
    if v.JArr? then v.items else []
  }

  /** The two lists and the number of stamps handed out so far. */
  datatype Lists = Lists(nights: seq<OvernightRecord>, ratings: seq<SleepinessRecord>, minted: nat)

  /**
    The lists after `loadDataInternal`: stored records are appended to what is
    there. A throwing `create` or `get` ends the load, keeping what was loaded
    before it.
  */
  function LoadInto(entries: map<string, Json>, failing: set<StorageCall>, before: Lists,
                    mint: nat -> Stamp): Lists
  {
    LoadWith(StoredItems(Lookup(entries, SleepStorageKey)), StoredItems(Lookup(entries, SleepinessStorageKey)),
             failing, before, NightDecoder(mint), RatingDecoder(mint))
  }

  /** The steps of a load, for any way of decoding one stored night and one stored rating. */
  function LoadWith(nightItems: seq<Json>, ratingItems: seq<Json>, failing: set<StorageCall>, before: Lists,
                    night: (Json, nat) -> seq<OvernightRecord>, rating: (Json, nat) -> seq<SleepinessRecord>): Lists
  {
    if CreateCall in failing || GetCall(SleepStorageKey) in failing then before
    else
      var nights := Collect(nightItems, before.minted, night);
      var next := before.minted + |nights|;
      if GetCall(SleepinessStorageKey) in failing then Lists(before.nights + nights, before.ratings, next)
      else
        var ratings := Collect(ratingItems, next, rating);
        Lists(before.nights + nights, before.ratings + ratings, next + |ratings|)
  }

  /** A stored value that is not an array leaves the lists as they were. */
  lemma LoadNothingStored(entries: map<string, Json>, before: Lists, mint: nat -> Stamp)
    requires !Lookup(entries, SleepStorageKey).JArr? && !Lookup(entries, SleepinessStorageKey).JArr?
    ensures LoadInto(entries, {}, before, mint) == before
  {
  }

  /** What a reload makes of saved nights: the same start and end, with fresh stamps. */
  function Restamped(rs: seq<OvernightRecord>, next: nat, mint: nat -> Stamp): (r: seq<OvernightRecord>)
    ensures |r| == |rs|
    ensures forall i :: 0 <= i < |rs| ==> r[i] == NewOvernight(rs[i].sleepStart, rs[i].sleepEnd, mint(next + i))
  {
    if rs == [] then []
    else [NewOvernight(rs[0].sleepStart, rs[0].sleepEnd, mint(next))] + Restamped(rs[1..], next + 1, mint)
  }

  /** What a reload makes of saved ratings: the same value and time, with fresh identifiers. */
  function RestampedRatings(rs: seq<SleepinessRecord>, next: nat, mint: nat -> Stamp): (r: seq<SleepinessRecord>)
    ensures |r| == |rs|
    ensures forall i :: 0 <= i < |rs| ==> r[i] == NewRating(rs[i].loggedValue, rs[i].loggedAt, mint(next + i))
  {
    if rs == [] then []
    else [NewRating(rs[0].loggedValue, rs[0].loggedAt, mint(next))] + RestampedRatings(rs[1..], next + 1, mint)
  }

  lemma DecodeEncodedNight(r: OvernightRecord)
    requires NightWritable(r)
    ensures DecodeNight(NightJson(r)) == Ok((r.sleepStart, r.sleepEnd))
  {
    var s1, s2, s3 := ToISOString(r.sleepStart.ms), ToISOString(r.sleepEnd.ms), ToISOString(r.loggedAt.ms);
    ParseStoredIso(r.sleepStart.ms);
    ParseStoredIso(r.sleepEnd.ms);
    DecodeNightFields(s1, s2, s3, r.id, r.sleepStart, r.sleepEnd);
  }

  /** Decoding a stored night object, for any strings that read back as the two dates. */
  lemma DecodeNightFields(s1: string, s2: string, s3: string, id: string, start: Date, end: Date)
    requires ParseDateFromStorage(Some(JStr(s1))) == Ok(start)
    requires ParseDateFromStorage(Some(JStr(s2))) == Ok(end)
    ensures DecodeNight(JObj(map["sleepStart" := JStr(s1), "sleepEnd" := JStr(s2), "loggedAt" := JStr(s3), "id" := JStr(id)]))
            == Ok((start, end))
  {
  }

  lemma DecodeEncodedRating(r: SleepinessRecord)
    requires r.loggedAt.ValidDate?
    ensures DecodeRating(RatingJson(r)) == Ok((r.loggedValue, r.loggedAt))
  {
    ParseStoredIso(r.loggedAt.ms);
    DecodeRatingFields(r.loggedValue, ToISOString(r.loggedAt.ms), r.id, r.loggedAt);
  }

  lemma DecodeRatingFields(v: int, s: string, id: string, at: Date)
    requires ParseDateFromStorage(Some(JStr(s))) == Ok(at)
    ensures DecodeRating(JObj(map["loggedValue" := JNum(v), "loggedAt" := JStr(s), "id" := JStr(id)])) == Ok((v, at))
  {
  }

  /**
    Loading items that were written by `encode`, when decoding an encoded value
    always gives back one record: the records, one per item, each with the
    stamp number of its position.
  */
  lemma CollectEncoded<S, T>(xs: seq<S>, items: seq<Json>, next: nat, decode: (Json, nat) -> seq<T>,
                             writable: S -> bool, encode: S --> Json, load: (S, nat) -> T)
    requires forall x :: writable(x) ==> encode.requires(x)
    requires |items| == |xs| && forall i :: 0 <= i < |xs| ==> writable(xs[i]) && items[i] == encode(xs[i])
    requires forall x, k: nat | writable(x) :: decode(encode(x), k) == [load(x, k)]
    ensures var r := Collect(items, next, decode);
            |r| == |xs| && forall i :: 0 <= i < |xs| ==> r[i] == load(xs[i], next + i)
  {
    var r := seq(|xs|, i requires 0 <= i < |xs| => load(xs[i], next + i));
    forall i | 0 <= i < |items|
      ensures decode(items[i], next + i) == [r[i]]
    {
      assert decode(encode(xs[i]), next + i) == [load(xs[i], next + i)];
    }
    CollectSingles(items, next, decode, r);
  }

  function NightEncoder(): OvernightRecord --> Json {
    (r: OvernightRecord) requires NightWritable(r) => NightJson(r)
  }

  function NightLoader(mint: nat -> Stamp): (OvernightRecord, nat) -> OvernightRecord {
    (r: OvernightRecord, k: nat) => NewOvernight(r.sleepStart, r.sleepEnd, mint(k))
  }

  function RatingEncoder(): SleepinessRecord --> Json {
    (r: SleepinessRecord) requires RatingWritable(r) => RatingJson(r)
  }

  function RatingLoader(mint: nat -> Stamp): (SleepinessRecord, nat) -> SleepinessRecord {
    (r: SleepinessRecord, k: nat) => NewRating(r.loggedValue, r.loggedAt, mint(k))
  }

  /** Every encodable night decodes back to its start and end, with the stamp it is given. */
  lemma NightsDecodable(mint: nat -> Stamp)
    ensures forall x, k: nat | NightWritable(x) :: NightDecoder(mint)(NightEncoder()(x), k) == [NightLoader(mint)(x, k)]
  {
    forall x, k: nat | NightWritable(x)
      ensures NightDecoder(mint)(NightEncoder()(x), k) == [NightLoader(mint)(x, k)]
    {
      DecodeEncodedNight(x);
    }
  }

  /** Every encodable rating decodes back to its value and time, with the stamp it is given. */
  lemma RatingsDecodable(mint: nat -> Stamp)
    ensures forall x, k: nat | RatingWritable(x) :: RatingDecoder(mint)(RatingEncoder()(x), k) == [RatingLoader(mint)(x, k)]
  {
    forall x, k: nat | RatingWritable(x)
      ensures RatingDecoder(mint)(RatingEncoder()(x), k) == [RatingLoader(mint)(x, k)]
    {
      DecodeEncodedRating(x);
    }
  }

  /** Decoding what was encoded gives every night back, with new stamps. */
  lemma DecodeEncodedNights(rs: seq<OvernightRecord>, items: seq<Json>, next: nat, mint: nat -> Stamp)
    requires EncodeNights(rs) == Ok(items)
    ensures DecodeNights(items, next, mint) == Restamped(rs, next, mint)
  {
    NightsDecodable(mint);
    CollectEncoded(rs, items, next, NightDecoder(mint), NightWritable, NightEncoder(), NightLoader(mint));
  }

  /** Decoding what was encoded gives every rating back, with new stamps. */
  lemma DecodeEncodedRatings(rs: seq<SleepinessRecord>, items: seq<Json>, next: nat, mint: nat -> Stamp)
    requires EncodeRatings(rs) == Ok(items)
    ensures DecodeRatings(items, next, mint) == RestampedRatings(rs, next, mint)
  {
    RatingsDecodable(mint);
    CollectEncoded(rs, items, next, RatingDecoder(mint), RatingWritable, RatingEncoder(), RatingLoader(mint));
  }

  /**
    Save then reload: after `saveDataToStorage` succeeds, the stored nights
    array decodes back to every night's start and end and the stored ratings
    array to every rating's value and time, in order. The stored identifiers and
    the nights' creation times are not read back: the records get new stamps.
    `ReloadOf` says how loading puts the two decodings together.
  */
  lemma SaveThenLoad(entries: map<string, Json>, nights: seq<OvernightRecord>, ratings: seq<SleepinessRecord>,
                     next: nat, k: nat, mint: nat -> Stamp)
    requires NightsWritable(nights) && RatingsWritable(ratings)
    ensures DecodeNights(StoredItems(Lookup(SavedEntries(entries, {}, nights, ratings), SleepStorageKey)), next, mint)
            == Restamped(nights, next, mint)
    ensures DecodeRatings(StoredItems(Lookup(SavedEntries(entries, {}, nights, ratings), SleepinessStorageKey)), k, mint)
            == RestampedRatings(ratings, k, mint)
  {
    SavedNightsReload(entries, nights, ratings, next, mint);
    SavedRatingsReload(entries, nights, ratings, k, mint);
  }

  lemma SavedNightsReload(entries: map<string, Json>, nights: seq<OvernightRecord>, ratings: seq<SleepinessRecord>,
                          next: nat, mint: nat -> Stamp)
    requires NightsWritable(nights) && RatingsWritable(ratings)
    ensures DecodeNights(StoredItems(Lookup(SavedEntries(entries, {}, nights, ratings), SleepStorageKey)), next, mint)
            == Restamped(nights, next, mint)
  {
    var n, r := EncodeNights(nights).value, EncodeRatings(ratings).value;
    SavedBoth(entries, nights, ratings, n, r);
    DecodeEncodedNights(nights, n, next, mint);
  }

  lemma SavedRatingsReload(entries: map<string, Json>, nights: seq<OvernightRecord>, ratings: seq<SleepinessRecord>,
                           next: nat, mint: nat -> Stamp)
    requires NightsWritable(nights) && RatingsWritable(ratings)
    ensures DecodeRatings(StoredItems(Lookup(SavedEntries(entries, {}, nights, ratings), SleepinessStorageKey)), next, mint)
            == RestampedRatings(ratings, next, mint)
  {
    var n, r := EncodeNights(nights).value, EncodeRatings(ratings).value;
    SavedBoth(entries, nights, ratings, n, r);
    DecodeEncodedRatings(ratings, r, next, mint);
  }

  /** Loading stored arrays whose decodings are known gives those decodings, nights first. */
  lemma ReloadOf(saved: map<string, Json>, a: seq<OvernightRecord>, b: seq<SleepinessRecord>,
                 next: nat, count: nat, total: nat, mint: nat -> Stamp)
    requires DecodeNights(StoredItems(Lookup(saved, SleepStorageKey)), next, mint) == a && |a| == count
    requires DecodeRatings(StoredItems(Lookup(saved, SleepinessStorageKey)), next + count, mint) == b
    requires count + |b| == total
    ensures LoadInto(saved, {}, Lists([], [], next), mint) == Lists(a, b, next + total)
  {
    LoadIntoFresh(saved, next, count, mint);
  }

  /** The cases of a load, one per call that can throw. */
  lemma LoadWithCases(nightItems: seq<Json>, ratingItems: seq<Json>, failing: set<StorageCall>, before: Lists,
                      night: (Json, nat) -> seq<OvernightRecord>, rating: (Json, nat) -> seq<SleepinessRecord>)
    ensures CreateCall in failing || GetCall(SleepStorageKey) in failing
            ==> LoadWith(nightItems, ratingItems, failing, before, night, rating) == before
    ensures var nights := Collect(nightItems, before.minted, night);
            var next := before.minted + |nights|;
            var ratings := Collect(ratingItems, next, rating);
            CreateCall !in failing && GetCall(SleepStorageKey) !in failing ==>
              LoadWith(nightItems, ratingItems, failing, before, night, rating)
              == if GetCall(SleepinessStorageKey) in failing then Lists(before.nights + nights, before.ratings, next)
                 else Lists(before.nights + nights, before.ratings + ratings, next + |ratings|)
  {
  }

  /** The cases of `LoadInto`, one per call that can throw. */
  lemma LoadIntoCases(entries: map<string, Json>, failing: set<StorageCall>, before: Lists, mint: nat -> Stamp)
    ensures CreateCall in failing || GetCall(SleepStorageKey) in failing ==> LoadInto(entries, failing, before, mint) == before
    ensures var nights := DecodeNights(StoredItems(Lookup(entries, SleepStorageKey)), before.minted, mint);
            var next := before.minted + |nights|;
            var ratings := DecodeRatings(StoredItems(Lookup(entries, SleepinessStorageKey)), next, mint);
            CreateCall !in failing && GetCall(SleepStorageKey) !in failing ==>
              LoadInto(entries, failing, before, mint)
              == if GetCall(SleepinessStorageKey) in failing then Lists(before.nights + nights, before.ratings, next)
                 else Lists(before.nights + nights, before.ratings + ratings, next + |ratings|)
  {
    LoadWithCases(StoredItems(Lookup(entries, SleepStorageKey)), StoredItems(Lookup(entries, SleepinessStorageKey)),
                  failing, before, NightDecoder(mint), RatingDecoder(mint));
  }

  /** With no failing call, a load into empty lists gives the two decodings, the ratings stamped after the nights. */
  lemma LoadWithFresh(nightItems: seq<Json>, ratingItems: seq<Json>, next: nat, count: nat,
                      night: (Json, nat) -> seq<OvernightRecord>, rating: (Json, nat) -> seq<SleepinessRecord>)
    requires |Collect(nightItems, next, night)| == count
    ensures var nights := Collect(nightItems, next, night);
            var ratings := Collect(ratingItems, next + count, rating);
            LoadWith(nightItems, ratingItems, {}, Lists([], [], next), night, rating)
            == Lists(nights, ratings, next + count + |ratings|)
  {
    var nights := Collect(nightItems, next, night);
    var ratings := Collect(ratingItems, next + count, rating);
    assert [] + nights == nights && [] + ratings == ratings;
  }

  /** With no failing call, loading into empty lists gives the two decodings, the ratings stamped after the nights. */
  lemma LoadIntoFresh(entries: map<string, Json>, next: nat, count: nat, mint: nat -> Stamp)
    requires |DecodeNights(StoredItems(Lookup(entries, SleepStorageKey)), next, mint)| == count
    ensures var nights := DecodeNights(StoredItems(Lookup(entries, SleepStorageKey)), next, mint);
            var ratings := DecodeRatings(StoredItems(Lookup(entries, SleepinessStorageKey)), next + count, mint);
            LoadInto(entries, {}, Lists([], [], next), mint) == Lists(nights, ratings, next + count + |ratings|)
  {
    LoadWithFresh(StoredItems(Lookup(entries, SleepStorageKey)), StoredItems(Lookup(entries, SleepinessStorageKey)),
                  next, count, NightDecoder(mint), RatingDecoder(mint));
  }

  /** With no failing call, saving writes both arrays. */
  lemma SavedBoth(entries: map<string, Json>, nights: seq<OvernightRecord>, ratings: seq<SleepinessRecord>,
                  n: seq<Json>, r: seq<Json>)
    requires EncodeNights(nights) == Ok(n) && EncodeRatings(ratings) == Ok(r)
    ensures Lookup(SavedEntries(entries, {}, nights, ratings), SleepStorageKey) == JArr(n)
    ensures Lookup(SavedEntries(entries, {}, nights, ratings), SleepinessStorageKey) == JArr(r)
  {
    assert |SleepStorageKey| != |SleepinessStorageKey|;
  }

  // ---------------------------------------------------------------------------
  // Queries and updates on the lists

  /** The records whose sleep date is not the given one (NaN dates never match, so they stay). */
  function WithoutSleepDate(rs: seq<OvernightRecord>, d: Date): (r: seq<OvernightRecord>)
    ensures |r| <= |rs|
  {
    if rs == [] then []
    else if SameTime(SleepDate(rs[0]), d) then WithoutSleepDate(rs[1..], d)
    else [rs[0]] + WithoutSleepDate(rs[1..], d)
  }

  /** The filter keeps exactly the records whose sleep date is not d. */
  lemma {:induction false} WithoutSleepDateMembers(rs: seq<OvernightRecord>, d: Date)
    ensures forall x :: x in WithoutSleepDate(rs, d) <==> x in rs && !SameTime(SleepDate(x), d)
  {
    if rs != [] {
      WithoutSleepDateMembers(rs[1..], d);
      assert rs == [rs[0]] + rs[1..];
    }
  }

  /** Filtering keeps the relative order: it distributes over concatenation. */
  lemma {:induction false} WithoutSleepDateAppend(a: seq<OvernightRecord>, b: seq<OvernightRecord>, d: Date)
    ensures WithoutSleepDate(a + b, d) == WithoutSleepDate(a, d) + WithoutSleepDate(b, d)
  {
    if a == [] {
      assert a + b == b;
    } else {
      assert (a + b)[0] == a[0] && (a + b)[1..] == a[1..] + b;
      WithoutSleepDateAppend(a[1..], b, d);
    }
  }

  /** The list after `logOvernightSleep` with the new record r. */
  function AfterLogNight(rs: seq<OvernightRecord>, r: OvernightRecord): (after: seq<OvernightRecord>)
    ensures |after| >= 1 && after[0] == r
    ensures forall i :: 1 <= i < |after| ==> !SameTime(SleepDate(after[i]), SleepDate(r))
    ensures forall x :: x in rs && !SameTime(SleepDate(x), SleepDate(r)) ==> x in after
  {
    var kept := WithoutSleepDate(rs, SleepDate(r));
    WithoutSleepDateMembers(rs, SleepDate(r));
    assert forall i :: 1 <= i < |[r] + kept| ==> ([r] + kept)[i] in kept;
    [r] + kept
  }

  /** No two records of the list share a sleep date. */
  predicate UniqueSleepDates(rs: seq<OvernightRecord>) {
    forall i, j :: 0 <= i < j < |rs| ==> !SameTime(SleepDate(rs[i]), SleepDate(rs[j]))
  }

  lemma UniqueCons(x: OvernightRecord, rs: seq<OvernightRecord>)
    requires UniqueSleepDates(rs)
    requires forall y :: y in rs ==> !SameTime(SleepDate(x), SleepDate(y))
    ensures UniqueSleepDates([x] + rs)
  {
    var s := [x] + rs;
    forall i, j | 0 <= i < j < |s| ensures !SameTime(SleepDate(s[i]), SleepDate(s[j])) {
      if i == 0 {
        assert s[j] == rs[j - 1];
      } else {
        assert s[i] == rs[i - 1] && s[j] == rs[j - 1];
      }
    }
  }

  lemma {:induction false} UniqueWithout(rs: seq<OvernightRecord>, d: Date)
    requires UniqueSleepDates(rs)
    ensures UniqueSleepDates(WithoutSleepDate(rs, d))
  {
    if rs != [] {
      var tail := rs[1..];
      assert UniqueSleepDates(tail) by {
        forall i, j | 0 <= i < j < |tail| ensures !SameTime(SleepDate(tail[i]), SleepDate(tail[j])) {
          assert tail[i] == rs[i + 1] && tail[j] == rs[j + 1];
        }
      }
      UniqueWithout(tail, d);
      if !SameTime(SleepDate(rs[0]), d) {
        WithoutSleepDateMembers(tail, d);
        forall y | y in WithoutSleepDate(tail, d) ensures !SameTime(SleepDate(rs[0]), SleepDate(y)) {
          var j :| 0 <= j < |tail| && tail[j] == y;
          assert rs[j + 1] == y;
        }
        UniqueCons(rs[0], WithoutSleepDate(tail, d));
      }
    }
  }

  /** Logging a night keeps "at most one record per sleep date". */
  lemma LogKeepsUnique(rs: seq<OvernightRecord>, r: OvernightRecord)
    requires UniqueSleepDates(rs)
    ensures UniqueSleepDates(AfterLogNight(rs, r))
  {
    UniqueWithout(rs, SleepDate(r));
    WithoutSleepDateMembers(rs, SleepDate(r));
    UniqueCons(r, WithoutSleepDate(rs, SleepDate(r)));
  }

  /** `find`: the first record whose sleep date is the target, if any. */
  function FindBySleepDate(rs: seq<OvernightRecord>, target: Date): (r: Option<OvernightRecord>)
    ensures r.None? <==> forall i :: 0 <= i < |rs| ==> !SameTime(SleepDate(rs[i]), target)
    ensures r.Some? ==> exists i :: 0 <= i < |rs| && rs[i] == r.value && SameTime(SleepDate(rs[i]), target)
                                    && forall j :: 0 <= j < i ==> !SameTime(SleepDate(rs[j]), target)
  {
    if rs == [] then None
    else if SameTime(SleepDate(rs[0]), target) then Some(rs[0])
    else
      var r := FindBySleepDate(rs[1..], target);
      assert forall i :: 1 <= i < |rs| ==> rs[i] == rs[1..][i - 1];
      if r.Some? then
        ghost var k :| 0 <= k < |rs[1..]| && rs[1..][k] == r.value && SameTime(SleepDate(rs[1..][k]), target)
                       && forall j :: 0 <= j < k ==> !SameTime(SleepDate(rs[1..][j]), target);
        assert rs[k + 1] == r.value;
        r
      else r
  }

  /**
    After logging a night, looking up the date it started on finds that record,
    whether the query is the start itself or the sleep date the logging page
    passes (which the store normalises once more).
  */
  lemma FindAfterLog(rs: seq<OvernightRecord>, r: OvernightRecord)
    requires r.sleepStart.ValidDate?
    ensures FindBySleepDate(AfterLogNight(rs, r), LocalMidnight(r.sleepStart)) == Some(r)
    ensures FindBySleepDate(AfterLogNight(rs, r), LocalMidnight(LocalMidnight(r.sleepStart))) == Some(r)
  {
    SleepDateMatchesOwnStart(r);
  }

  /** `some`: a record's sleep date is the target. */
  predicate SomeOnDate(rs: seq<OvernightRecord>, target: Date) {
    exists i :: 0 <= i < |rs| && SameTime(SleepDate(rs[i]), target)
  }

  /** After logging a night that started today (outside the years 0..99), today counts as logged. */
  lemma LoggedTodayAfterLog(rs: seq<OvernightRecord>, r: OvernightRecord, now: TimeValue)
    requires r.sleepStart.ValidDate? && Day(r.sleepStart.ms) == Day(now)
    requires !(0 <= YearFromTime(r.sleepStart.ms) <= 99)
    ensures SomeOnDate(AfterLogNight(rs, r), SetHoursToMidnight(ValidDate(now)))
  {
    SleepDateIsDayStart(r);
    assert SameTime(SleepDate(AfterLogNight(rs, r)[0]), SetHoursToMidnight(ValidDate(now)));
  }

  /** The nights that started at or after the cutoff (`sleepStart >= cutoff`, false for NaN). */
  function Recent(rs: seq<OvernightRecord>, cutoff: Date): (r: seq<OvernightRecord>)
    ensures |r| <= |rs|
    ensures forall x :: x in r <==> x in rs && AtOrBefore(cutoff, x.sleepStart)
  {
    if rs == [] then []
    else
      var rest := Recent(rs[1..], cutoff);
      assert forall x :: x in rs <==> x == rs[0] || x in rs[1..] by {
        assert rs == [rs[0]] + rs[1..];
      }
      if AtOrBefore(cutoff, rs[0].sleepStart) then [rs[0]] + rest else rest
  }

  /** The filter keeps every night at or after the cutoff, as often as it occurs, and nothing else. */
  lemma {:induction false} RecentCounts(rs: seq<OvernightRecord>, cutoff: Date)
    ensures forall x :: multiset(Recent(rs, cutoff))[x] == if AtOrBefore(cutoff, x.sleepStart) then multiset(rs)[x] else 0
  {
    if rs != [] {
      RecentCounts(rs[1..], cutoff);
      assert rs == [rs[0]] + rs[1..];
    }
  }

  /** The filter keeps the order of the nights it keeps: it distributes over concatenation. */
  lemma {:induction false} RecentAppend(a: seq<OvernightRecord>, b: seq<OvernightRecord>, cutoff: Date)
    ensures Recent(a + b, cutoff) == Recent(a, cutoff) + Recent(b, cutoff)
  {
    if a == [] {
      assert a + b == b;
    } else {
      assert (a + b)[0] == a[0] && (a + b)[1..] == a[1..] + b;
      RecentAppend(a[1..], b, cutoff);
    }
  }

  /** The durations of the nights, in order (NaN as `None`). */
  function Durations(rs: seq<OvernightRecord>): (ds: seq<Option<real>>)
    ensures |ds| == |rs|
    ensures forall i :: 0 <= i < |rs| ==> ds[i] == DurationInHours(rs[i])
  {
    seq(|rs|, i requires 0 <= i < |rs| => DurationInHours(rs[i]))
  }

  /** A sum of hours starting from 0; one NaN term makes it NaN. */
  function SumHours(ds: seq<Option<real>>): (t: Option<real>)
    ensures t.Some? <==> forall i :: 0 <= i < |ds| ==> ds[i].Some?
  {
    if ds == [] then Some(0.0)
    else
      var rest := SumHours(ds[1..]);
      assert forall i :: 1 <= i < |ds| ==> ds[i] == ds[1..][i - 1];
      match (ds[0], rest)
      case (Some(a), Some(b)) => Some(a + b)
      case _ => None
  }

  /** The sum of the durations (`reduce`); one NaN duration makes it NaN. */
  function TotalHours(rs: seq<OvernightRecord>): (t: Option<real>)
    ensures t.Some? <==> forall i :: 0 <= i < |rs| ==> DurationInHours(rs[i]).Some?
  {
    SumHours(Durations(rs))
  }

  /** The mean duration, and exactly 0 for no nights. */
  function AverageHours(rs: seq<OvernightRecord>): (avg: Option<real>)
    ensures rs == [] ==> avg == Some(0.0)
    ensures rs != [] ==> (avg.Some? <==> TotalHours(rs).Some?)
    ensures rs != [] && avg.Some? ==> avg.value * |rs| as real == TotalHours(rs).value
  {
    if rs == [] then Some(0.0)
    else
      match TotalHours(rs)
      case None => None
      case Some(t) => Some(t / |rs| as real)
  }

  /** When every duration lies within [lo, hi], the sum lies within n * lo and n * hi. */
  lemma TotalBounds(rs: seq<OvernightRecord>, lo: real, hi: real)
    requires forall i :: 0 <= i < |rs| ==> DurationInHours(rs[i]).Some?
    requires forall i :: 0 <= i < |rs| ==> lo <= DurationInHours(rs[i]).value <= hi
    ensures TotalHours(rs).Some?
    ensures |rs| as real * lo <= TotalHours(rs).value <= |rs| as real * hi
  {
    var ds := Durations(rs);
    assert forall i :: 0 <= i < |ds| ==> ds[i].Some? && lo <= ds[i].value <= hi;
    SumAtLeast(ds, lo);
    SumAtMost(ds, hi);
  }

  lemma {:induction false} SumAtLeast(ds: seq<Option<real>>, lo: real)
    requires forall i :: 0 <= i < |ds| ==> ds[i].Some? && lo <= ds[i].value
    ensures SumHours(ds).Some? && |ds| as real * lo <= SumHours(ds).value
  {
    if ds != [] {
      var tail := ds[1..];
      assert forall i :: 0 <= i < |tail| ==> tail[i] == ds[i + 1];
      SumAtLeast(tail, lo);
      AddAtLeast(|tail| as real, |ds| as real, lo, ds[0].value, SumHours(tail).value);
    }
  }

  lemma {:induction false} SumAtMost(ds: seq<Option<real>>, hi: real)
    requires forall i :: 0 <= i < |ds| ==> ds[i].Some? && ds[i].value <= hi
    ensures SumHours(ds).Some? && SumHours(ds).value <= |ds| as real * hi
  {
    if ds != [] {
      var tail := ds[1..];
      assert forall i :: 0 <= i < |tail| ==> tail[i] == ds[i + 1];
      SumAtMost(tail, hi);
      AddAtMost(|tail| as real, |ds| as real, hi, ds[0].value, SumHours(tail).value);
    }
  }

  lemma AddAtLeast(m: real, n: real, lo: real, d: real, t: real)
    requires n == m + 1.0
    requires m * lo <= t && lo <= d
    ensures n * lo <= d + t
  {
    assert n * lo == m * lo + lo;
  }

  lemma AddAtMost(m: real, n: real, hi: real, d: real, t: real)
    requires n == m + 1.0
    requires t <= m * hi && d <= hi
    ensures d + t <= n * hi
  {
    assert n * hi == m * hi + hi;
  }

  /** When every duration lies within [lo, hi], so does the average. */
  lemma AverageBounds(rs: seq<OvernightRecord>, lo: real, hi: real)
    requires rs != []
    requires forall i :: 0 <= i < |rs| ==> DurationInHours(rs[i]).Some?
    requires forall i :: 0 <= i < |rs| ==> lo <= DurationInHours(rs[i]).value <= hi
    ensures AverageHours(rs).Some?
    ensures lo <= AverageHours(rs).value <= hi
  {
    TotalBounds(rs, lo, hi);
    MeanBounds(|rs| as real, TotalHours(rs).value, AverageHours(rs).value, lo, hi);
  }

  /** A mean of n values lies between their bounds. */
  lemma MeanBounds(n: real, total: real, avg: real, lo: real, hi: real)
    requires n > 0.0 && avg * n == total && n * lo <= total <= n * hi
    ensures lo <= avg <= hi
  {
    assert (avg - lo) * n >= 0.0;
    assert (hi - avg) * n >= 0.0;
  }

  // ---------------------------------------------------------------------------
  // The service

  class SleepService {
    var overnight: seq<OvernightRecord>
    var sleepiness: seq<SleepinessRecord>
    var isDataLoaded: bool
    /** Whether `loadPromise` has been set. */
    var loadStarted: bool
    /** The number of records constructed so far; the next one gets `mint(minted)`. */
    var minted: nat
    const storage: KeyValueStorage
    /** The identifier and creation time the base class gives the k-th record made. */
    const mint: nat -> Stamp

    function State(): Lists
      reads this
    {
      Lists(overnight, sleepiness, minted)
    }

    /** Loading has happened: it is started by the constructor and then done for good. */
    predicate Valid()
      reads this
    {
      loadStarted && isDataLoaded
    }

    /** The constructor starts loading at once. */
    constructor (storage: KeyValueStorage, mint: nat -> Stamp)
      ensures this.storage == storage && this.mint == mint
      ensures Valid()
      ensures State() == LoadInto(storage.entries, storage.failing, Lists([], [], 0), mint)
    {
      this.storage := storage;
      this.mint := mint;
      overnight := [];
      sleepiness := [];
      isDataLoaded := false;
      loadStarted := false;
      minted := 0;
      new;
      EnsureDataLoaded();
    }

    /** `ensureDataLoaded`: loads only the first time; afterwards nothing changes. */
    method EnsureDataLoaded()
      requires loadStarted ==> isDataLoaded
      modifies this
      ensures isDataLoaded
      ensures loadStarted == (old(loadStarted) || !old(isDataLoaded))
      ensures old(loadStarted) || old(isDataLoaded) ==> State() == old(State())
      ensures !old(loadStarted) && !old(isDataLoaded) ==>
                State() == LoadInto(storage.entries, storage.failing, old(State()), mint)
    {
      if loadStarted {
        return;
      }
      if isDataLoaded {
        return;
      }
      loadStarted := true;
      LoadDataInternal();
    }

    /** `loadDataInternal`: both the normal end and a caught exception mark the data loaded. */
    method LoadDataInternal()
      modifies this
      ensures isDataLoaded && loadStarted == old(loadStarted)
      ensures State() == LoadInto(storage.entries, storage.failing, old(State()), mint)
    {
      ghost var before := State();
      LoadIntoCases(storage.entries, storage.failing, before, mint);
      var created := storage.Create();
      if !created {
        isDataLoaded := true;
        assert State() == before;
        return;
      }
      var storedSleep := storage.Get(SleepStorageKey);
      if storedSleep.Threw? {
        isDataLoaded := true;
        assert State() == before;
        return;
      }
      ghost var nights := DecodeNights(StoredItems(storedSleep.value), before.minted, mint);
      LoadNights(StoredItems(storedSleep.value));
      assert State() == Lists(before.nights + nights, before.ratings, before.minted + |nights|);
      var storedSleepiness := storage.Get(SleepinessStorageKey);
      if storedSleepiness.Threw? {
        isDataLoaded := true;
        assert State() == LoadInto(storage.entries, storage.failing, before, mint);
        return;
      }
      LoadRatings(StoredItems(storedSleepiness.value));
      isDataLoaded := true;
      assert State() == LoadInto(storage.entries, storage.failing, before, mint);
    }

    /** The stamp the base class gives the next record constructed. */
    method NextStamp() returns (s: Stamp)
      modifies this`minted
      ensures s == mint(old(minted)) && minted == old(minted) + 1
    {
      s := mint(minted);
      minted := minted + 1;
    }

    /** One pass of the nights loop: the night made from `item`, unless making it throws. */
    method LoadNight(item: Json)
      modifies this`overnight, this`minted
      ensures overnight == old(overnight) + DecodeNights([item], old(minted), mint)
      ensures minted == old(minted) + |DecodeNights([item], old(minted), mint)|
    {
      DecodeNightsIsCollect([item], minted, mint);
      CollectOne(item, minted, NightDecoder(mint));
      NightDecoderApply(item, minted, mint);
      match DecodeNight(item)
      case Threw =>
      case Ok((s, e)) =>
        var stamp := NextStamp();
        overnight := overnight + [NewOvernight(s, e, stamp)];
    }

    /** One pass of the ratings loop. */
    method LoadRating(item: Json)
      modifies this`sleepiness, this`minted
      ensures sleepiness == old(sleepiness) + DecodeRatings([item], old(minted), mint)
      ensures minted == old(minted) + |DecodeRatings([item], old(minted), mint)|
    {
      DecodeRatingsIsCollect([item], minted, mint);
      CollectOne(item, minted, RatingDecoder(mint));
      RatingDecoderApply(item, minted, mint);
      match DecodeRating(item)
      case Threw =>
      case Ok((v, t)) =>
        var stamp := NextStamp();
        sleepiness := sleepiness + [NewRating(v, t, stamp)];
    }

    /** Pass i of the nights loop, from the state after the items before it to the state after it. */
    method LoadNightAt(ghost before: seq<OvernightRecord>, ghost start: nat, items: seq<Json>, i: nat)
      requires i < |items|
      requires overnight == before + DecodeNights(items[..i], start, mint)
      requires minted == start + |DecodeNights(items[..i], start, mint)|
      modifies this`overnight, this`minted
      ensures overnight == before + DecodeNights(items[..i + 1], start, mint)
      ensures minted == start + |DecodeNights(items[..i + 1], start, mint)|
    {
      ghost var done := DecodeNights(items[..i], start, mint);
      ghost var one := DecodeNights([items[i]], start + |done|, mint);
      LoadNight(items[i]);
      assert overnight == before + done + one && minted == start + |done| + |one|;
      LoadedNightsStep(before, items, i, start, mint);
    }

    /** The loop over stored nights: decode each, push the ones that do not throw. */
    method LoadNights(items: seq<Json>)
      modifies this`overnight, this`minted
      ensures overnight == old(overnight) + DecodeNights(items, old(minted), mint)
      ensures minted == old(minted) + |DecodeNights(items, old(minted), mint)|
    {
      for i := 0 to |items|
        invariant overnight == old(overnight) + DecodeNights(items[..i], old(minted), mint)
        invariant minted == old(minted) + |DecodeNights(items[..i], old(minted), mint)|
      {
        LoadNightAt(old(overnight), old(minted), items, i);
      }
      assert items[..|items|] == items;
    }

    /** Pass i of the ratings loop, from the state after the items before it to the state after it. */
    method LoadRatingAt(ghost before: seq<SleepinessRecord>, ghost start: nat, items: seq<Json>, i: nat)
      requires i < |items|
      requires sleepiness == before + DecodeRatings(items[..i], start, mint)
      requires minted == start + |DecodeRatings(items[..i], start, mint)|
      modifies this`sleepiness, this`minted
      ensures sleepiness == before + DecodeRatings(items[..i + 1], start, mint)
      ensures minted == start + |DecodeRatings(items[..i + 1], start, mint)|
    {
      ghost var done := DecodeRatings(items[..i], start, mint);
      ghost var one := DecodeRatings([items[i]], start + |done|, mint);
      LoadRating(items[i]);
      assert sleepiness == before + done + one && minted == start + |done| + |one|;
      LoadedRatingsStep(before, items, i, start, mint);
    }

    /** The loop over stored ratings. */
    method LoadRatings(items: seq<Json>)
      modifies this`sleepiness, this`minted
      ensures sleepiness == old(sleepiness) + DecodeRatings(items, old(minted), mint)
      ensures minted == old(minted) + |DecodeRatings(items, old(minted), mint)|
    {
      for i := 0 to |items|
        invariant sleepiness == old(sleepiness) + DecodeRatings(items[..i], old(minted), mint)
        invariant minted == old(minted) + |DecodeRatings(items[..i], old(minted), mint)|
      {
        LoadRatingAt(old(sleepiness), old(minted), items, i);
      }
      assert items[..|items|] == items;
    }

    /** `saveDataToStorage`: rewrites both keys from the current lists; errors are caught. */
    method SaveDataToStorage()
      modifies storage
      ensures storage.entries == SavedEntries(old(storage.entries), storage.failing, overnight, sleepiness)
    {
      var nights := EncodeNights(overnight);
      var ratings := EncodeRatings(sleepiness);
      if nights.Threw? || ratings.Threw? {
        return;
      }
      var ok := storage.Set(SleepStorageKey, JArr(nights.value));
      if !ok {
        return;
      }
      ok := storage.Set(SleepinessStorageKey, JArr(ratings.value));
    }

    // The queries below start with `ensureDataLoaded`, which changes nothing
    // once the service is Valid (see EnsureDataLoaded), so they read the lists directly.

    /** `getAllOvernightSleepData`: a copy of the list, newest first. */
    method GetAllOvernightSleepData() returns (r: seq<OvernightRecord>)
      requires Valid()
      ensures r == overnight
    {
      r := overnight;
    }

    /** `getAllSleepinessData`. */
    method GetAllSleepinessData() returns (r: seq<SleepinessRecord>)
      requires Valid()
      ensures r == sleepiness
    {
      r := sleepiness;
    }

    /** `getSleepForDate(date)`: the first record whose sleep date is the date's own midnight. */
    method GetSleepForDate(date: Date) returns (r: Option<OvernightRecord>)
      requires Valid()
      ensures r.None? <==> forall i :: 0 <= i < |overnight| ==> !SameTime(SleepDate(overnight[i]), LocalMidnight(date))
      ensures r.Some? ==> exists i :: 0 <= i < |overnight| && overnight[i] == r.value
                                      && SameTime(SleepDate(overnight[i]), LocalMidnight(date))
                                      && forall j :: 0 <= j < i ==> !SameTime(SleepDate(overnight[j]), LocalMidnight(date))
      ensures r == FindBySleepDate(overnight, LocalMidnight(date))
    {
      var targetDate := LocalMidnight(date);
      r := FindBySleepDate(overnight, targetDate);
    }

    /** `hasLoggedToday()`, with the current time as a parameter. */
    method HasLoggedToday(now: TimeValue) returns (b: bool)
      requires Valid()
      ensures b <==> SomeOnDate(overnight, SetHoursToMidnight(ValidDate(now)))
    {
      var today := SetHoursToMidnight(ValidDate(now));
      b := FindBySleepDate(overnight, today).Some?;
    }

    /**
      `getAverageSleepDuration()`, with the current time as a parameter: the mean
      duration of the nights that started at most seven days before now, 0 for none.
    */
    method GetAverageSleepDuration(now: TimeValue) returns (avg: Option<real>)
      requires Valid()
      ensures avg == AverageHours(Recent(overnight, TimeClip(now - 7 * MsPerDay)))
    {
      var lastWeek := SetDate(ValidDate(now), DateFromTime(now) - 7);
      SetDateBack(now, 7);
      var recentSleeps := Recent(overnight, lastWeek);
      if |recentSleeps| == 0 {
        return Some(0.0);
      }
      var totalHours := TotalHours(recentSleeps);
      if totalHours.None? {
        return None;
      }
      avg := Some(totalHours.value / |recentSleeps| as real);
    }

    /**
      `logOvernightSleep(start, end)`: drops every record with the new night's
      sleep date, puts the new record first and saves both lists.
    */
    method LogOvernightSleep(sleepStart: Date, sleepEnd: Date) returns (r: OvernightRecord)
      requires Valid()
      modifies this, storage
      ensures Valid()
      ensures r == NewOvernight(sleepStart, sleepEnd, mint(old(minted)))
      ensures overnight == AfterLogNight(old(overnight), r)
      ensures sleepiness == old(sleepiness) && minted == old(minted) + 1
      ensures storage.entries == SavedEntries(old(storage.entries), storage.failing, overnight, sleepiness)
    {
      EnsureDataLoaded();
      var sleepDate := LocalMidnight(sleepStart);
      overnight := WithoutSleepDate(overnight, sleepDate);
      var stamp := NextStamp();
      r := NewOvernight(sleepStart, sleepEnd, stamp);
      overnight := [r] + overnight;
      SaveDataToStorage();
    }

    /** `logSleepiness(value, loggedAt)`: puts one rating first, with no range check on the value. */
    method LogSleepiness(value: int, loggedAt: Date) returns (r: SleepinessRecord)
      requires Valid()
      modifies this, storage
      ensures Valid()
      ensures r == NewRating(value, loggedAt, mint(old(minted)))
      ensures sleepiness == [r] + old(sleepiness)
      ensures overnight == old(overnight) && minted == old(minted) + 1
      ensures storage.entries == SavedEntries(old(storage.entries), storage.failing, overnight, sleepiness)
    {
      EnsureDataLoaded();
      var stamp := NextStamp();
      r := NewRating(value, loggedAt, stamp);
      sleepiness := [r] + sleepiness;
      SaveDataToStorage();
    }
  }
}
