/** The decisions log: four entry types in one record form, the flat file, the fragment
    directory, and loading, compacting, appending and updating over both.  Dumping a value
    as YAML or JSON and parsing it back is taken to be the identity on `Json`. */
module Decisions {
  import opened Basics
  import opened Ordering
  import opened JsonOrder

  datatype Error = KeyError | ValueError | TypeError | AttributeError | DecodeError

  datatype Result<+T> = Ok(value: T) | Err(error: Error)

  predicate Truthy(j: Json) {
    match j
    case Null => false
    case Bool(b) => b
    case Num(n) => n != 0
    case Str(s) => s != ""
    case Arr(items) => items != []
    case Obj(m) => m != map[]
  }

  // ------------------------------------------------------------ entry types

  datatype Kind = Rule | Decision | Exception | Coupling

  function KindName(k: Kind): string {
    match k
    case Rule => "rule"
    case Decision => "decision"
    case Exception => "exception"
    case Coupling => "coupling"
  }

  function Registry(name: string): Option<Kind> {
    if name == "rule" then Some(Rule)
    else if name == "decision" then Some(Decision)
    else if name == "exception" then Some(Exception)
    else if name == "coupling" then Some(Coupling)
    else None
  }

  // The fields a type always writes, with their defaults, besides `id`.
  function Always(k: Kind): map<string, Json> {
    var common := map["type" := Str(KindName(k)), "timestamp" := Str(""), "category" := Str(""),
      "labels" := Arr([]), "rationale" := Str("")];
    match k
    case Rule => common + map["rule" := Str(""), "enforcement" := Str("advisory")]
    case Decision => common + map["rule" := Str(""), "scope" := Str("issue")]
    case Exception => common + map["rule_ref" := Str(""), "issue" := Str("")]
    case Coupling => common + map["if_changed" := Str(""), "then_check" := Arr([]), "tier" := Str("soft"),
      "enforcement" := Str("advisory")]
  }

  // The fields a type writes only when they are not None.
  function Optional(k: Kind): set<string> {
    var source := {"source_session_id", "source_issue_id"};
    match k
    case Rule => source + {"supersedes", "issue"}
    case Decision => source + {"alternatives_rejected", "issue", "outcome"}
    case Exception => source + {"alternatives_rejected"}
    case Coupling => source + {"archetype", "supersedes", "issue"}
  }

  function Known(k: Kind): set<string> {
    {"id"} + Always(k).Keys + Optional(k)
  }

  datatype Entry =
    Entry(kind: Kind, id: Json, always: map<string, Json>, optional: map<string, Json>, extra: map<string, Json>)

  // `DecisionOutcome.from_dict(...).to_dict()`, and None for a falsy value.
  function Outcome(j: Json): Result<Json> {
    if !Truthy(j) then Ok(Null)
    else if !j.Obj? then Err(TypeError)
    else if "result" !in j.fields || "measured_at" !in j.fields then Err(KeyError)
    else
      var base := map["result" := j.fields["result"], "measured_at" := j.fields["measured_at"]];
      Ok(Obj(if "notes" in j.fields && j.fields["notes"] != Null then base["notes" := j.fields["notes"]] else base))
  }

  function Get(d: map<string, Json>, key: string, default: Json): Json {
    if key in d then d[key] else default
  }

  // `cls.from_dict`
  function FromDict(k: Kind, d: map<string, Json>): Result<Entry> {
    var outcome := if k.Decision? then Outcome(Get(d, "outcome", Null)) else Ok(Null);
    if "id" !in d then Err(KeyError)
    else if outcome.Err? then Err(outcome.error)
    else
      Ok(Entry(k, d["id"],
        map f | f in Always(k) :: Get(d, f, Always(k)[f]),
        map f | f in Optional(k) :: if k.Decision? && f == "outcome" then outcome.value else Get(d, f, Null),
        d - Known(k)))
  }

  // `_entry_from_dict`
  function EntryFromDict(j: Json): Result<Entry> {
    if !j.Obj? then Err(AttributeError)
    else
      match Get(j.fields, "type", Str("rule"))
      case Str(name) => (
        match Registry(name)
        case Some(k) => FromDict(k, j.fields)
        case None => Err(ValueError))
      case Arr(_) => Err(TypeError)
      case Obj(_) => Err(TypeError)
      case _ => Err(ValueError)
  }

  function Present(optional: map<string, Json>): map<string, Json> {
    map f | f in optional && optional[f] != Null :: optional[f]
  }

  // `to_dict`
  function ToDict(e: Entry): Json {
    Obj(map["id" := e.id] + e.always + Present(e.optional) + e.extra)
  }

  // What holds of every entry that was loaded from a dictionary.
  ghost predicate WellFormed(e: Entry) {
    && e.always.Keys == Always(e.kind).Keys && e.optional.Keys == Optional(e.kind)
    && e.always["type"] == Str(KindName(e.kind))
    && e.extra.Keys !! Known(e.kind)
    && (e.kind.Decision? ==> Outcome(e.optional["outcome"]) == Ok(e.optional["outcome"]))
  }

  lemma OutcomeStable(j: Json)
    ensures Outcome(j).Ok? ==> Outcome(Outcome(j).value) == Outcome(j)
  {
    if Outcome(j).Ok? && Truthy(j) {
      assert "result" in Outcome(j).value.fields;
    }
  }

  lemma KindsDiffer(k: Kind)
    ensures Registry(KindName(k)) == Some(k)
    ensures "id" !in Always(k) && "id" !in Optional(k) && Always(k).Keys !! Optional(k)
    ensures "type" in Always(k) && "timestamp" in Always(k) && ("outcome" in Optional(k) <==> k.Decision?)
  {
    hide *;
    RegistryOf(k);
    KeysApart(k);
    KeysPresent(k);
  }

  lemma RegistryOf(k: Kind)
    ensures Registry(KindName(k)) == Some(k)
  {}

  lemma KeysApart(k: Kind)
    ensures "id" !in Always(k) && "id" !in Optional(k) && Always(k).Keys !! Optional(k)
  {
    hide *;
    match k {
      case Rule => RuleKeysApart();
      case Decision => DecisionKeysApart();
      case Exception => ExceptionKeysApart();
      case Coupling => CouplingKeysApart();
    }
  }

  lemma RuleKeysApart()
    ensures "id" !in Always(Rule) && "id" !in Optional(Rule) && Always(Rule).Keys !! Optional(Rule)
  {
    hide KindName;
  }

  lemma DecisionKeysApart()
    ensures "id" !in Always(Decision) && "id" !in Optional(Decision) && Always(Decision).Keys !! Optional(Decision)
  {
    hide KindName;
  }

  lemma ExceptionKeysApart()
    ensures "id" !in Always(Exception) && "id" !in Optional(Exception) && Always(Exception).Keys !! Optional(Exception)
  {
    hide KindName;
  }

  lemma CouplingKeysApart()
    ensures "id" !in Always(Coupling) && "id" !in Optional(Coupling) && Always(Coupling).Keys !! Optional(Coupling)
  {
    hide KindName;
  }

  lemma KeysPresent(k: Kind)
    ensures "type" in Always(k) && "timestamp" in Always(k) && ("outcome" in Optional(k) <==> k.Decision?)
  {
    hide KindName, Registry;
  }

  lemma RegistryName(name: string)
    ensures Registry(name).Some? ==> KindName(Registry(name).value) == name
  {}

  lemma LoadedWellFormed(j: Json)
    ensures EntryFromDict(j).Ok? ==> WellFormed(EntryFromDict(j).value)
  {
    hide Outcome, Always, Optional, KindName, Registry, Truthy;
    if EntryFromDict(j).Ok? {
      var e := EntryFromDict(j).value;
      KindsDiffer(e.kind);
      TypeOfLoaded(j);
      OutcomeStable(Get(j.fields, "outcome", Null));
    }
  }

  lemma TypeOfLoaded(j: Json)
    ensures EntryFromDict(j).Ok? ==>
      "type" in EntryFromDict(j).value.always
      && EntryFromDict(j).value.always["type"] == Str(KindName(EntryFromDict(j).value.kind))
  {
    hide Outcome, Optional, Truthy;
    if j.Obj? {
      var t := Get(j.fields, "type", Str("rule"));
      if t.Str? { RegistryName(t.s); }
    }
  }

  // The fields of a loaded entry, by the table of its type.
  lemma LoadsByTable(k: Kind, d: map<string, Json>)
    requires "id" in d && (if "type" in d then d["type"] == Str(KindName(k)) else k == Rule)
    requires k.Decision? ==> Outcome(Get(d, "outcome", Null)).Ok?
    ensures EntryFromDict(Obj(d)).Ok?
    ensures var e := EntryFromDict(Obj(d)).value;
      && e.kind == k && e.id == d["id"] && e.always.Keys == Always(k).Keys && e.optional.Keys == Optional(k)
      && (forall f | f in Always(k) :: e.always[f] == if f in d then d[f] else Always(k)[f])
      && (forall f | f in Optional(k) && f != "outcome" :: e.optional[f] == if f in d then d[f] else Null)
      && (k.Decision? ==> e.optional["outcome"] == Outcome(Get(d, "outcome", Null)).value)
      && e.extra == map f | f in d && f != "id" && f !in Always(k) && f !in Optional(k) :: d[f]
  {
    hide Outcome, Always, Optional, Registry, Truthy;
    RegistryOf(k);
    KindsDiffer(k);
    RuleName();
  }

  // When a value is no entry, and with which error.
  lemma EntryFails(j: Json)
    ensures !j.Obj? ==> EntryFromDict(j) == Err(AttributeError)
    ensures j.Obj? && "type" in j.fields ==>
      var t := j.fields["type"];
      && (t.Arr? || t.Obj? ==> EntryFromDict(j) == Err(TypeError))
      && (t == Null || t.Bool? || t.Num? ==> EntryFromDict(j) == Err(ValueError))
      && (t.Str? && t.s !in {"rule", "decision", "exception", "coupling"} ==> EntryFromDict(j) == Err(ValueError))
    ensures j.Obj? && "id" !in j.fields ==> EntryFromDict(j).Err?
  {
    hide FromDict;
    if j.Obj? && "id" !in j.fields {
      forall k ensures FromDict(k, j.fields) == Err(KeyError) { NoId(k, j.fields); }
    }
  }

  lemma NoId(k: Kind, d: map<string, Json>)
    ensures "id" !in d ==> FromDict(k, d) == Err(KeyError)
  {
    hide Always, Optional, Outcome;
  }

  // The outcome of a decision: absent when falsy, otherwise result, date and any notes.
  lemma OutcomeMeans(j: Json)
    ensures j == Null || j == Obj(map[]) || j == Arr([]) || j == Str("") || j == Num(0) || j == Bool(false) ==>
      Outcome(j) == Ok(Null)
    ensures j == Bool(true) || (j.Num? && j.n != 0) || (j.Str? && j.s != "") || (j.Arr? && j.items != []) ==>
      Outcome(j) == Err(TypeError)
    ensures j.Obj? && j.fields != map[] ==>
      && (Outcome(j).Ok? <==> "result" in j.fields && "measured_at" in j.fields)
      && (Outcome(j).Err? ==> Outcome(j) == Err(KeyError))
      && (Outcome(j).Ok? ==>
           && Outcome(j).value.Obj?
           && var o := Outcome(j).value.fields;
              && "result" in o && o["result"] == j.fields["result"]
              && "measured_at" in o && o["measured_at"] == j.fields["measured_at"]
              && ("notes" in o <==> "notes" in j.fields && j.fields["notes"] != Null)
              && ("notes" in o ==> o["notes"] == j.fields["notes"])
              && o.Keys <= {"result", "measured_at", "notes"})
  {}

  lemma RuleName()
    ensures KindName(Rule) == "rule"
  {}

  // The key names, the defaults and the optional keys of each type, as they stand in a file.
  lemma RuleTable()
    ensures KindName(Rule) == "rule"
    ensures Always(Rule) == map["type" := Str("rule"), "timestamp" := Str(""), "category" := Str(""),
      "labels" := Arr([]), "rationale" := Str(""), "rule" := Str(""), "enforcement" := Str("advisory")]
    ensures Optional(Rule) == {"supersedes", "issue", "source_session_id", "source_issue_id"}
  {}

  lemma DecisionTable()
    ensures KindName(Decision) == "decision"
    ensures Always(Decision) == map["type" := Str("decision"), "timestamp" := Str(""), "category" := Str(""),
      "labels" := Arr([]), "rationale" := Str(""), "rule" := Str(""), "scope" := Str("issue")]
    ensures Optional(Decision) == {"alternatives_rejected", "issue", "outcome", "source_session_id", "source_issue_id"}
  {}

  lemma ExceptionTable()
    ensures KindName(Exception) == "exception"
    ensures Always(Exception) == map["type" := Str("exception"), "timestamp" := Str(""), "category" := Str(""),
      "labels" := Arr([]), "rationale" := Str(""), "rule_ref" := Str(""), "issue" := Str("")]
    ensures Optional(Exception) == {"alternatives_rejected", "source_session_id", "source_issue_id"}
  {}

  lemma CouplingTable()
    ensures KindName(Coupling) == "coupling"
    ensures Always(Coupling) == map["type" := Str("coupling"), "timestamp" := Str(""), "category" := Str(""),
      "labels" := Arr([]), "rationale" := Str(""), "if_changed" := Str(""), "then_check" := Arr([]),
      "tier" := Str("soft"), "enforcement" := Str("advisory")]
    ensures Optional(Coupling) == {"archetype", "supersedes", "issue", "source_session_id", "source_issue_id"}
  {}

  // Reading back what a well-formed entry writes gives the entry: every loaded entry
  // round-trips, with nulls, unknown keys and outcomes in place.
  lemma RoundTrip(e: Entry)
    requires WellFormed(e)
    ensures EntryFromDict(ToDict(e)) == Ok(e)
  {
    hide Outcome, Always, Optional, KindName, Registry, Truthy;
    KindsDiffer(e.kind);
    var d := ToDict(e).fields;
    DictOf(e);
    assert Get(d, "type", Str("rule")) == Str(KindName(e.kind));
    var back := FromDict(e.kind, d).value;
    assert back.always == e.always;
    assert back.optional == e.optional;
    assert back.extra == e.extra;
  }

  // What a well-formed entry writes: its id, the fields its type always has, the optional ones
  // that are not None, and whatever else came with it.
  lemma DictOf(e: Entry)
    requires WellFormed(e)
    ensures var d := ToDict(e).fields;
      && "id" in d && d["id"] == e.id
      && (forall f | f in e.always :: f in d && d[f] == e.always[f])
      && (forall f | f in e.optional :: (f in d <==> e.optional[f] != Null) && (f in d ==> d[f] == e.optional[f]))
      && (forall f | f in e.extra :: f in d && d[f] == e.extra[f])
      && (forall f | f in d :: f in Known(e.kind) || f in e.extra)
  {
    hide Outcome, Always, Optional, KindName, Registry, Truthy;
    KindsDiffer(e.kind);
  }

  // ------------------------------------------------------------ storage

  // A file: unreadable or unparseable, or a parsed value.
  datatype Content = Garbled | Parsed(json: Json)

  // The flat file, if it exists, and the `*.json` files of the fragment directory.
  datatype Store = Store(flat: Option<Content>, fragments: map<string, Content>)

  // What one fragment contributes: nothing when it is malformed in a way the loader
  // catches.  A value that is not an object raises AttributeError, which it does not catch.
  function Fragment(c: Content): Result<Option<Entry>> {
    match c
    case Garbled => Ok(None)
    case Parsed(j) =>
      match EntryFromDict(j)
      case Ok(e) => Ok(Some(e))
      case Err(AttributeError) => Err(AttributeError)
      case Err(_) => Ok(None)
  }

  predicate Usable(c: Content) {
    Fragment(c).Ok? && Fragment(c).value.Some?
  }

  function Timestamp(e: Entry): Json
  {
    Get(e.always, "timestamp", Str(""))
  }

  // The sort key (timestamp, filename), with as much of the timestamp as the order sees.
  datatype Key = Key(stamp: Stamp, name: string)

  function KeyLeq(): (Key, Key) -> bool {
    (a: Key, b: Key) => if a.stamp != b.stamp then StampLeq(a.stamp, b.stamp) else LexLeq(a.name, b.name)
  }

  lemma KeyOrder()
    ensures TotalOrder(KeyLeq())
  {
    var leq := KeyLeq();
    forall a: Key, b: Key ensures leq(a, b) || leq(b, a) {
      StampTotal(a.stamp, b.stamp);
      LexTotal(a.name, b.name);
    }
    forall a: Key, b: Key | leq(a, b) && leq(b, a) ensures a == b {
      if a.stamp != b.stamp { StampAntisymmetric(a.stamp, b.stamp); } else { LexAntisymmetric(a.name, b.name); }
    }
    forall a: Key, b: Key, c: Key | leq(a, b) && leq(b, c) ensures leq(a, c) {
      if a.stamp == b.stamp == c.stamp {
        LexTransitive(a.name, b.name, c.name);
      } else if a.stamp != b.stamp && b.stamp != c.stamp {
        StampTransitive(a.stamp, b.stamp, c.stamp);
        if a.stamp == c.stamp { StampAntisymmetric(a.stamp, b.stamp); }
      }
    }
  }

  function TimestampAt(fragments: map<string, Content>, name: string): Json
    requires name in fragments && Usable(fragments[name])
  {
    Timestamp(Fragment(fragments[name]).value.value)
  }

  // No two timestamps make `<` raise: the sort of the parsed fragments gets through.
  ghost predicate Sortable(fragments: map<string, Content>) {
    forall m, n | m in fragments && n in fragments && Usable(fragments[m]) && Usable(fragments[n]) ::
      Compare(TimestampAt(fragments, m), TimestampAt(fragments, n)).Some?
  }

  function KeyOf(fragments: map<string, Content>, name: string): Key
    requires name in fragments && Usable(fragments[name])
  {
    Key(StampOf(Canon(TimestampAt(fragments, name))), name)
  }

  // The fragments in the order a directory listing delivers them.
  function Keys(fragments: map<string, Content>, listing: seq<string>): seq<Key>
    requires forall n | n in listing :: n in fragments
  {
    if listing == [] then []
    else (if Usable(fragments[listing[0]]) then [KeyOf(fragments, listing[0])] else []) + Keys(fragments, listing[1..])
  }

  function EntryAt(fragments: map<string, Content>, k: Key): Option<Entry> {
    if k.name in fragments && Usable(fragments[k.name]) then Fragment(fragments[k.name]).value else None
  }

  // `[entry for _, _, entry in parsed]`
  function Entries(fragments: map<string, Content>, keys: seq<Key>): seq<Entry> {
    if keys == [] then []
    else
      (match EntryAt(fragments, keys[0]) case Some(e) => [e] case None => []) + Entries(fragments, keys[1..])
  }

  // A listing names every file of the directory once.
  ghost predicate IsListing(fragments: map<string, Content>, listing: seq<string>) {
    Distinct(listing) && Elems(listing) == fragments.Keys
  }

  ghost predicate NoCrash(fragments: map<string, Content>) {
    forall n | n in fragments :: Fragment(fragments[n]).Ok?
  }

  // The timestamps of the parsed fragments, in the order of the listing.
  function Timestamps(fragments: map<string, Content>, listing: seq<string>): seq<Json>
    requires forall n | n in listing :: n in fragments
  {
    if listing == [] then []
    else
      (if Usable(fragments[listing[0]]) then [TimestampAt(fragments, listing[0])] else [])
      + Timestamps(fragments, listing[1..])
  }

  predicate AllComparable(ts: seq<Json>) {
    forall i, j | 0 <= i < |ts| && 0 <= j < |ts| :: Compare(ts[i], ts[j]).Some?
  }

  lemma {:induction false} TimestampsElems(fragments: map<string, Content>, listing: seq<string>)
    requires forall n | n in listing :: n in fragments
    ensures forall t :: t in Timestamps(fragments, listing) <==>
      exists n :: n in listing && Usable(fragments[n]) && TimestampAt(fragments, n) == t
  {
    hide Usable, TimestampAt;
    if listing != [] {
      TimestampsElems(fragments, listing[1..]);
      assert forall n :: n in listing <==> n == listing[0] || n in listing[1..];
    }
  }

  lemma SortableIff(fragments: map<string, Content>, listing: seq<string>)
    requires IsListing(fragments, listing)
    ensures forall n | n in listing :: n in fragments
    ensures AllComparable(Timestamps(fragments, listing)) <==> Sortable(fragments)
  {
    hide Usable, TimestampAt, Compare;
    ListingMembers(fragments, listing);
    TimestampsElems(fragments, listing);
    var ts := Timestamps(fragments, listing);
    if Sortable(fragments) {
      forall i, j | 0 <= i < |ts| && 0 <= j < |ts| ensures Compare(ts[i], ts[j]).Some? {
        assert ts[i] in ts && ts[j] in ts;
      }
    }
    if AllComparable(ts) {
      forall m, n | m in fragments && n in fragments && Usable(fragments[m]) && Usable(fragments[n])
        ensures Compare(TimestampAt(fragments, m), TimestampAt(fragments, n)).Some?
      {
        assert TimestampAt(fragments, m) in ts && TimestampAt(fragments, n) in ts;
      }
    }
  }

  // `_load_fragments` over a listing.  The sort raises on incomparable timestamps.
  method LoadFragments(fragments: map<string, Content>, listing: seq<string>) returns (r: Result<seq<Entry>>)
    requires IsListing(fragments, listing)
    ensures r.Ok? <==> NoCrash(fragments) && Sortable(fragments)
    ensures r.Ok? ==> r.value == Entries(fragments, Sort(Keys(fragments, listing), KeyLeq()))
    ensures r.Err? ==> r.error == if NoCrash(fragments) then TypeError else AttributeError
  {
    hide Distinct, Sort, KeyLeq, Entries, Fragment, Sortable, AllComparable, KeyOf, TimestampAt, Keys, Timestamps,
      IsListing, NoCrash, Usable;
    SortableIff(fragments, listing);
    var keys: seq<Key>, stamps: seq<Json> := [], [];
    assert listing[0..] == listing && keys + Keys(fragments, listing) == Keys(fragments, listing);
    assert stamps + Timestamps(fragments, listing) == Timestamps(fragments, listing);
    for i := 0 to |listing|
      invariant keys + Keys(fragments, listing[i..]) == Keys(fragments, listing)
      invariant stamps + Timestamps(fragments, listing[i..]) == Timestamps(fragments, listing)
      invariant forall j | 0 <= j < i :: Fragment(fragments[listing[j]]).Ok?
    {
      var name := listing[i];
      var f := Fragment(fragments[name]);
      if f.Err? {
        Crashes(fragments, name);
        return Err(f.error);
      }
      KeysStep(fragments, listing, i, keys, stamps);
      if f.value.Some? {
        keys, stamps := keys + [KeyOf(fragments, name)], stamps + [TimestampAt(fragments, name)];
      }
    }
    AllRead(fragments, listing, keys, stamps);
    if !AllComparable(stamps) {
      return Err(TypeError);
    }
    return Ok(Entries(fragments, Sort(keys, KeyLeq())));
  }

  lemma Crashes(fragments: map<string, Content>, name: string)
    requires name in fragments && Fragment(fragments[name]).Err?
    ensures !NoCrash(fragments) && Fragment(fragments[name]).error.AttributeError?
  {
    hide Fragment;
    OnlyAttributeErrors(fragments[name]);
  }

  // One file of the listing, read or skipped.
  lemma KeysStep(fragments: map<string, Content>, listing: seq<string>, i: nat, keys: seq<Key>, stamps: seq<Json>)
    requires i < |listing| && forall n | n in listing :: n in fragments
    requires keys + Keys(fragments, listing[i..]) == Keys(fragments, listing)
    requires stamps + Timestamps(fragments, listing[i..]) == Timestamps(fragments, listing)
    requires Fragment(fragments[listing[i]]).Ok?
    ensures var name, rest := listing[i], listing[i + 1..];
      if Fragment(fragments[name]).value.Some? then
        && name in fragments && Usable(fragments[name])
        && keys + [KeyOf(fragments, name)] + Keys(fragments, rest) == Keys(fragments, listing)
        && stamps + [TimestampAt(fragments, name)] + Timestamps(fragments, rest) == Timestamps(fragments, listing)
      else
        && keys + Keys(fragments, rest) == Keys(fragments, listing)
        && stamps + Timestamps(fragments, rest) == Timestamps(fragments, listing)
  {
    hide Fragment, KeyOf, TimestampAt;
    var name := listing[i];
    assert listing[i..][1..] == listing[i + 1..] && listing[i..][0] == name;
    var rest, more := Keys(fragments, listing[i + 1..]), Timestamps(fragments, listing[i + 1..]);
    if Fragment(fragments[name]).value.Some? {
      Associate(keys, [KeyOf(fragments, name)], rest);
      Associate(stamps, [TimestampAt(fragments, name)], more);
    } else {
      assert [] + rest == rest && [] + more == more;
    }
  }

  lemma AllRead(fragments: map<string, Content>, listing: seq<string>, keys: seq<Key>, stamps: seq<Json>)
    requires IsListing(fragments, listing) && forall n | n in listing :: n in fragments
    requires forall j | 0 <= j < |listing| :: Fragment(fragments[listing[j]]).Ok?
    requires keys + Keys(fragments, listing[|listing|..]) == Keys(fragments, listing)
    requires stamps + Timestamps(fragments, listing[|listing|..]) == Timestamps(fragments, listing)
    ensures NoCrash(fragments) && keys == Keys(fragments, listing) && stamps == Timestamps(fragments, listing)
  {
    hide Fragment, KeyOf, TimestampAt;
    assert keys + [] == keys && stamps + [] == stamps;
    forall n | n in fragments ensures Fragment(fragments[n]).Ok? {
      assert n in Elems(listing);
    }
  }

  lemma OnlyAttributeErrors(c: Content)
    ensures Fragment(c).Err? ==> Fragment(c).error.AttributeError?
  {}

  // A fragment file is read or skipped unless it holds JSON that is not an object: the loader
  // then raises an error the loop does not catch.
  lemma FragmentReadIff(c: Content)
    ensures Fragment(c).Ok? <==> (c.Parsed? ==> c.json.Obj?)
  {
    if c.Parsed? && c.json.Obj? {
      OnlyAttributeErrors(c);
      ObjectsLoad(c.json);
    }
  }

  lemma ObjectsLoad(j: Json)
    requires j.Obj?
    ensures EntryFromDict(j).Err? ==> !EntryFromDict(j).error.AttributeError?
  {}

  lemma {:induction false} KeysElems(fragments: map<string, Content>, listing: seq<string>)
    requires Distinct(listing) && forall n | n in listing :: n in fragments
    ensures Distinct(Keys(fragments, listing))
    ensures forall k :: k in Keys(fragments, listing) <==>
      k.name in listing && Usable(fragments[k.name]) && k == KeyOf(fragments, k.name)
  {
    hide KeyOf, Usable;
    if listing != [] {
      RestElems(listing);
      KeysElems(fragments, listing[1..]);
      KeyOfName(fragments, listing[0]);
      assert listing[0] !in listing[1..] by { assert listing[0] !in Elems(listing[1..]); }
      assert forall n :: n in listing <==> n == listing[0] || n in listing[1..];
    }
  }

  lemma KeyOfName(fragments: map<string, Content>, name: string)
    ensures name in fragments && Usable(fragments[name]) ==> KeyOf(fragments, name).name == name
  {}

  // The order in which the directory is listed does not matter.
  lemma ListingIrrelevant(fragments: map<string, Content>, a: seq<string>, b: seq<string>)
    requires IsListing(fragments, a) && IsListing(fragments, b)
    ensures (forall n | n in a :: n in fragments) && (forall n | n in b :: n in fragments)
    ensures Sort(Keys(fragments, a), KeyLeq()) == Sort(Keys(fragments, b), KeyLeq())
  {
    hide Distinct, Sort, KeyLeq, Usable, KeyOf;
    assert forall n :: n in a <==> n in Elems(a);
    assert forall n :: n in b <==> n in Elems(b);
    KeysElems(fragments, a);
    KeysElems(fragments, b);
    KeyOrder();
    assert forall k :: k in Keys(fragments, a) <==> k in Keys(fragments, b);
    SortCanonical(Keys(fragments, a), Keys(fragments, b), KeyLeq());
  }

  // ------------------------------------------------------------ the flat file

  // `for e in entries` over a parsed value: a mapping yields its keys, a string its letters.
  function Iterate(j: Json): Result<seq<Json>> {
    match j
    case Arr(items) => Ok(items)
    case Obj(m) => if m == map[] then Ok([]) else Err(AttributeError)
    case Str(t) => if t == "" then Ok([]) else Err(AttributeError)
    case _ => Err(TypeError)
  }

  function ParseAll(items: seq<Json>): Result<seq<Entry>> {
    if items == [] then Ok([])
    else
      var first := EntryFromDict(items[0]);
      if first.Err? then Err(first.error)
      else
        var rest := ParseAll(items[1..]);
        if rest.Err? then rest else Ok([first.value] + rest.value)
  }

  // The flat file is parsed strictly.
  function FlatEntries(flat: Option<Content>): Result<seq<Entry>> {
    match flat
    case None => Ok([])
    case Some(Garbled) => Err(DecodeError)
    case Some(Parsed(j)) =>
      if !Truthy(j) then Ok([])
      else
        var items := if j.Arr? then Ok(j.items)
          else if j.Obj? then Iterate(Get(j.fields, "entries", Arr([])))
          else Err(AttributeError);
        if items.Err? then Err(items.error) else ParseAll(items.value)
  }

  function Dicts(es: seq<Entry>): seq<Json> {
    if es == [] then [] else [ToDict(es[0])] + Dicts(es[1..])
  }

  lemma {:induction false} DictsAt(es: seq<Entry>)
    ensures |Dicts(es)| == |es| && forall i | 0 <= i < |es| :: Dicts(es)[i] == ToDict(es[i])
  {
    hide ToDict;
    if es != [] { DictsAt(es[1..]); }
  }

  // `load_decisions`: flat entries followed by the sorted fragments.
  ghost function Loaded(s: Store, listing: seq<string>): Result<seq<Entry>>
    requires IsListing(s.fragments, listing)
  {
    ListingMembers(s.fragments, listing);
    var legacy := FlatEntries(s.flat);
    if legacy.Err? then legacy
    else if !NoCrash(s.fragments) then Err(AttributeError)
    else if !Sortable(s.fragments) then Err(TypeError)
    else Ok(legacy.value + Entries(s.fragments, Sort(Keys(s.fragments, listing), KeyLeq())))
  }

  // The log loads exactly when the flat file does, no fragment holds JSON that is not an
  // object, and the timestamps of the parsed fragments compare with each other.
  lemma LoadsIff(s: Store, listing: seq<string>)
    requires IsListing(s.fragments, listing)
    ensures Loaded(s, listing).Ok? <==>
      && FlatEntries(s.flat).Ok?
      && (forall n | n in s.fragments && s.fragments[n].Parsed? :: s.fragments[n].json.Obj?)
      && Sortable(s.fragments)
  {
    hide FlatEntries, Fragment, Sortable, Entries, Distinct, Sort, KeyLeq, Keys;
    forall n | n in s.fragments
      ensures Fragment(s.fragments[n]).Ok? <==> (s.fragments[n].Parsed? ==> s.fragments[n].json.Obj?)
    {
      FragmentReadIff(s.fragments[n]);
    }
  }

  // A fragment that holds `[]` makes the load raise.
  lemma ArrayFragmentRaises()
    ensures var s := Store(None, map["a.json" := Parsed(Arr([]))]);
      IsListing(s.fragments, ["a.json"]) && Loaded(s, ["a.json"]) == Err(AttributeError)
  {
    var s := Store(None, map["a.json" := Parsed(Arr([]))]);
    assert Fragment(s.fragments["a.json"]) == Err(AttributeError);
  }

  function RuleAt(timestamp: Json): Entry {
    Entry(Rule, Str("R"), Always(Rule)["timestamp" := timestamp], map f | f in Optional(Rule) :: Null, map[])
  }

  lemma RuleAtWellFormed(timestamp: Json)
    ensures WellFormed(RuleAt(timestamp)) && Timestamp(RuleAt(timestamp)) == timestamp
  {
    KindsDiffer(Rule);
    assert "timestamp"[1] != "type"[1];
    assert Always(Rule)["timestamp" := timestamp].Keys == Always(Rule).Keys;
    assert (map f | f in Optional(Rule) :: Null).Keys == Optional(Rule);
  }

  // Two well-formed fragments with the timestamps 1 and "x" make the load raise.
  lemma MixedTimestampsRaise()
    ensures var s := Store(None, map["a.json" := Parsed(ToDict(RuleAt(Num(1)))),
        "b.json" := Parsed(ToDict(RuleAt(Str("x"))))]);
      && IsListing(s.fragments, ["a.json", "b.json"])
      && NoCrash(s.fragments) && Loaded(s, ["a.json", "b.json"]) == Err(TypeError)
  {
    hide RuleAt, ToDict, WellFormed, Timestamp, Fragment;
    var s := Store(None, map["a.json" := Parsed(ToDict(RuleAt(Num(1)))), "b.json" := Parsed(ToDict(RuleAt(Str("x"))))]);
    RuleAtWellFormed(Num(1));
    RuleAtWellFormed(Str("x"));
    WrittenFragment(RuleAt(Num(1)));
    WrittenFragment(RuleAt(Str("x")));
    assert "a.json"[0] != "b.json"[0];
    assert TimestampAt(s.fragments, "a.json") == Num(1) && TimestampAt(s.fragments, "b.json") == Str("x");
    assert Compare(Num(1), Str("x")).None?;
    assert !Sortable(s.fragments);
  }

  lemma ListingMembers(fragments: map<string, Content>, listing: seq<string>)
    requires IsListing(fragments, listing)
    ensures forall n :: n in listing <==> n in fragments
  {
    hide Distinct;
    assert forall n :: n in listing <==> n in Elems(listing);
  }

  // `save_decisions`
  function Save(es: seq<Entry>): Store {
    Store(Some(Parsed(Arr(Dicts(es)))), map[])
  }

  // `add_entry` under a fresh file name
  function Add(s: Store, name: string, e: Entry): Store {
    s.(fragments := s.fragments[name := Parsed(ToDict(e))])
  }

  ghost predicate AllWellFormed(es: seq<Entry>) {
    forall i | 0 <= i < |es| :: WellFormed(es[i])
  }

  lemma {:induction false} ParseDicts(es: seq<Entry>)
    requires AllWellFormed(es)
    ensures ParseAll(Dicts(es)) == Ok(es)
    ensures es != [] ==> Dicts(es) != []
  {
    hide ToDict, EntryFromDict, WellFormed;
    if es != [] {
      RoundTrip(es[0]);
      ParseDicts(es[1..]);
      assert Dicts(es)[1..] == Dicts(es[1..]);
      assert es == [es[0]] + es[1..];
    }
  }

  lemma FlatOfDicts(es: seq<Entry>)
    requires AllWellFormed(es)
    ensures FlatEntries(Some(Parsed(Arr(Dicts(es))))) == Ok(es)
  {
    hide ToDict, EntryFromDict, WellFormed, ParseAll;
    ParseDicts(es);
    if es == [] { NoDicts(); }
  }

  // A mapping file: the list under `entries` loads like the bare list, and a mapping without
  // that key is an empty log.
  lemma FlatMapping(m: map<string, Json>, es: seq<Entry>)
    requires AllWellFormed(es)
    ensures "entries" in m && m["entries"] == Arr(Dicts(es)) ==> FlatEntries(Some(Parsed(Obj(m)))) == Ok(es)
    ensures "entries" !in m ==> FlatEntries(Some(Parsed(Obj(m)))) == Ok([])
    ensures "entries" in m ==>
      var list := m["entries"];
      && (list == Obj(map[]) || list == Str("") ==> FlatEntries(Some(Parsed(Obj(m)))) == Ok([]))
      && ((list.Obj? && list.fields != map[]) || (list.Str? && list.s != "") ==>
           FlatEntries(Some(Parsed(Obj(m)))) == Err(AttributeError))
      && (list == Null || list.Bool? || list.Num? ==> FlatEntries(Some(Parsed(Obj(m)))) == Err(TypeError))
  {
    hide ToDict, EntryFromDict, WellFormed, ParseAll;
    ParseDicts(es);
    NothingParsed();
  }

  lemma NothingParsed()
    ensures ParseAll([]) == Ok([])
  {}

  // No file and a file that holds nothing are an empty log; a list loads entry by entry, and
  // its first bad entry raises; any other value raises.
  lemma FlatMeans(flat: Option<Content>)
    ensures flat.None? ==> FlatEntries(flat) == Ok([])
    ensures flat == Some(Garbled) ==> FlatEntries(flat) == Err(DecodeError)
    ensures flat.Some? && flat.value.Parsed? ==>
      var j := flat.value.json;
      && (j == Null || j == Bool(false) || j == Num(0) || j == Str("") ==> FlatEntries(flat) == Ok([]))
      && (j == Bool(true) || (j.Num? && j.n != 0) || (j.Str? && j.s != "") ==> FlatEntries(flat) == Err(AttributeError))
      && (j.Arr? && FlatEntries(flat).Ok? ==>
           && |FlatEntries(flat).value| == |j.items|
           && forall i | 0 <= i < |j.items| :: EntryFromDict(j.items[i]) == Ok(FlatEntries(flat).value[i]))
      && (j.Arr? && FlatEntries(flat).Err? ==>
           exists i :: 0 <= i < |j.items| && EntryFromDict(j.items[i]) == Err(FlatEntries(flat).error)
             && forall k | 0 <= k < i :: EntryFromDict(j.items[k]).Ok?)
  {
    hide EntryFromDict, ParseAll;
    NothingParsed();
    if flat.Some? && flat.value.Parsed? && flat.value.json.Arr? {
      ParseEach(flat.value.json.items);
    }
  }

  lemma {:induction false} ParseEach(items: seq<Json>)
    ensures ParseAll(items).Ok? ==>
      && |ParseAll(items).value| == |items|
      && forall i | 0 <= i < |items| :: EntryFromDict(items[i]) == Ok(ParseAll(items).value[i])
    ensures ParseAll(items).Err? ==>
      exists i :: 0 <= i < |items| && EntryFromDict(items[i]) == Err(ParseAll(items).error)
        && forall k | 0 <= k < i :: EntryFromDict(items[k]).Ok?
  {
    hide EntryFromDict;
    if items != [] && EntryFromDict(items[0]).Ok? {
      ParseEach(items[1..]);
      assert forall i | 0 <= i < |items| - 1 :: items[1..][i] == items[i + 1];
      if ParseAll(items).Err? {
        var i :| 0 <= i < |items[1..]| && EntryFromDict(items[1..][i]) == Err(ParseAll(items[1..]).error)
          && forall k | 0 <= k < i :: EntryFromDict(items[1..][k]).Ok?;
        assert EntryFromDict(items[i + 1]) == Err(ParseAll(items).error);
        forall k | 0 <= k < i + 1 ensures EntryFromDict(items[k]).Ok? {
          if k > 0 { assert items[k] == items[1..][k - 1]; }
        }
      }
    }
  }

  lemma NoDicts()
    ensures Dicts([]) == []
  {}

  lemma {:induction false} ParsedWellFormed(items: seq<Json>)
    ensures ParseAll(items).Ok? ==> AllWellFormed(ParseAll(items).value)
  {
    hide EntryFromDict, WellFormed;
    if items != [] {
      LoadedWellFormed(items[0]);
      ParsedWellFormed(items[1..]);
    }
  }

  lemma FragmentWellFormed(c: Content)
    ensures Usable(c) ==> WellFormed(Fragment(c).value.value)
  {
    hide EntryFromDict, WellFormed;
    if c.Parsed? { LoadedWellFormed(c.json); }
  }

  lemma {:induction false} EntriesWellFormed(fragments: map<string, Content>, keys: seq<Key>)
    ensures AllWellFormed(Entries(fragments, keys))
  {
    hide WellFormed, Usable, Fragment;
    if keys != [] {
      if keys[0].name in fragments { FragmentWellFormed(fragments[keys[0].name]); }
      EntriesWellFormed(fragments, keys[1..]);
    }
  }

  lemma LoadWellFormed(s: Store, listing: seq<string>)
    requires IsListing(s.fragments, listing)
    ensures Loaded(s, listing).Ok? ==> AllWellFormed(Loaded(s, listing).value)
    ensures FlatEntries(s.flat).Ok? ==> AllWellFormed(FlatEntries(s.flat).value)
  {
    hide WellFormed, Usable, Fragment, Entries, ParseAll, Sort, Distinct, Truthy, NoCrash, KeyLeq;
    ListingMembers(s.fragments, listing);
    EntriesWellFormed(s.fragments, Sort(Keys(s.fragments, listing), KeyLeq()));
    if s.flat.Some? && s.flat.value.Parsed? {
      var j := s.flat.value.json;
      if j.Arr? { ParsedWellFormed(j.items); }
      if j.Obj? {
        var items := Iterate(Get(j.fields, "entries", Arr([])));
        if items.Ok? { ParsedWellFormed(items.value); }
      }
    }
  }

  lemma TimestampOf(j: Json)
    ensures EntryFromDict(j).Ok? ==>
      && j.Obj?
      && Timestamp(EntryFromDict(j).value) == RawStamp(j)
  {
    hide Outcome, Optional, Truthy, Always, KindName, Registry;
    if EntryFromDict(j).Ok? {
      var k := EntryFromDict(j).value.kind;
      KindsDiffer(k);
      DefaultStamp(k);
    }
  }

  // `data.get("timestamp", "")`
  function RawStamp(j: Json): Json
    requires j.Obj?
  {
    if "timestamp" in j.fields then j.fields["timestamp"] else Str("")
  }

  lemma DefaultStamp(k: Kind)
    ensures "timestamp" in Always(k) && Always(k)["timestamp"] == Str("")
  {
    hide KindName;
    match k {
      case Rule => RuleTable();
      case Decision => DecisionTable();
      case Exception => ExceptionTable();
      case Coupling => CouplingTable();
    }
  }

  lemma KeysInOrder(f: map<string, Content>, m: string, n: string)
    requires m in f && n in f && Usable(f[m]) && Usable(f[n])
    requires KeyLeq()(KeyOf(f, m), KeyOf(f, n)) && Compare(TimestampAt(f, m), TimestampAt(f, n)).Some?
    ensures var o := Compare(TimestampAt(f, m), TimestampAt(f, n));
      o == Some(Before) || (o == Some(Same) && LexLeq(m, n))
  {
    hide TimestampAt, Usable;
    hide StampOf, StampLeq;
    var x, y := Canon(TimestampAt(f, m)), Canon(TimestampAt(f, n));
    var a, b := KeyOf(f, m), KeyOf(f, n);
    assert a == Key(StampOf(x), m) && b == Key(StampOf(y), n);
    assert if a.stamp != b.stamp then StampLeq(a.stamp, b.stamp) else LexLeq(a.name, b.name);
    StampAgrees(x, y);
    var o := CompareCanon(x, y);
    assert o == Compare(TimestampAt(f, m), TimestampAt(f, n));
    match o.value {
      case Before =>
      case Same => assert a.stamp == b.stamp;
      case After => StampAntisymmetric(a.stamp, b.stamp);
    }
  }

  // A loaded log is the flat entries followed by the entries of the readable fragments, in the
  // order of their timestamps and, between equal timestamps, of their file names.
  lemma LoadedOrder(s: Store, listing: seq<string>) returns (order: seq<string>)
    requires IsListing(s.fragments, listing) && Loaded(s, listing).Ok?
    ensures FlatEntries(s.flat).Ok?
    ensures var es, legacy := Loaded(s, listing).value, FlatEntries(s.flat).value;
      |es| == |legacy| + |order| && es[..|legacy|] == legacy
    ensures forall n :: n in order <==>
      n in s.fragments && s.fragments[n].Parsed? && EntryFromDict(s.fragments[n].json).Ok?
    ensures forall i | 0 <= i < |order| ::
      && order[i] in s.fragments && s.fragments[order[i]].Parsed?
      && EntryFromDict(s.fragments[order[i]].json)
         == Ok(Loaded(s, listing).value[|FlatEntries(s.flat).value| + i])
    ensures forall i, j | 0 <= i < j < |order| ::
      && order[i] in s.fragments && s.fragments[order[i]].Parsed? && s.fragments[order[i]].json.Obj?
      && order[j] in s.fragments && s.fragments[order[j]].Parsed? && s.fragments[order[j]].json.Obj?
      && var o := Compare(RawStamp(s.fragments[order[i]].json), RawStamp(s.fragments[order[j]].json));
         order[i] != order[j] && (o == Some(Before) || (o == Some(Same) && LexLeq(order[i], order[j])))
  {
    hide Distinct, Sort, KeyLeq, FlatEntries, Entries, Keys, KeyOf, TotalOrder, Compare, EntryFromDict, Timestamp;
    var f := s.fragments;
    SortedElems(f, listing);
    SortedDistinct(f, listing);
    var sorted := Sort(Keys(f, listing), KeyLeq());
    KeyOrder();
    SortCorrect(Keys(f, listing), KeyLeq());
    order := seq(|sorted|, i requires 0 <= i < |sorted| => sorted[i].name);
    forall n ensures n in order <==> n in f && Usable(f[n]) {
      if n in f && Usable(f[n]) {
        KeyOfName(f, n);
        var i :| 0 <= i < |sorted| && sorted[i] == KeyOf(f, n);
        assert order[i] == n;
      }
      if n in order {
        var i :| 0 <= i < |order| && order[i] == n;
        assert sorted[i] in sorted;
      }
    }
    forall i | 0 <= i < |sorted|
      ensures EntryAt(f, sorted[i]).Some? && Usable(f[order[i]]) && sorted[i] == KeyOf(f, order[i])
    {
      assert sorted[i] in sorted;
    }
    EntriesIndexed(f, sorted);
    forall i, j | 0 <= i < j < |order|
      ensures order[i] != order[j]
      ensures var o := Compare(TimestampAt(f, order[i]), TimestampAt(f, order[j]));
        o == Some(Before) || (o == Some(Same) && LexLeq(order[i], order[j]))
    {
      DistinctAt(sorted, i, j);
      KeysInOrder(f, order[i], order[j]);
    }
    forall n | n in f && Usable(f[n]) ensures f[n].json.Obj? && TimestampAt(f, n) == RawStamp(f[n].json) {
      TimestampOf(f[n].json);
    }
  }

  lemma DistinctAt(sorted: seq<Key>, i: nat, j: nat)
    requires Distinct(sorted) && i < j < |sorted|
    ensures sorted[i] != sorted[j]
  {}

  // Compaction: saving what was loaded leaves the log unchanged, even when malformed
  // fragments were skipped on the way.
  lemma CompactionKeepsLog(s: Store, listing: seq<string>)
    requires IsListing(s.fragments, listing) && Loaded(s, listing).Ok?
    ensures IsListing(map[], [])
    ensures Loaded(Save(Loaded(s, listing).value), []) == Loaded(s, listing)
  {
    hide WellFormed, FlatEntries, KeyLeq, ToDict;
    var es := Loaded(s, listing).value;
    LoadWellFormed(s, listing);
    FlatOfDicts(es);
    EmptyListing();
    assert es + [] == es;
  }

  lemma EmptyListing()
    ensures IsListing(map[], []) && Sort(Keys(map[], []), KeyLeq()) == [] && Entries(map[], []) == []
  {
    assert Elems<string>([]) == {};
  }

  // ------------------------------------------------------------ appending

  lemma {:induction false} EntriesSplit(fragments: map<string, Content>, a: seq<Key>, b: seq<Key>)
    ensures Entries(fragments, a + b) == Entries(fragments, a) + Entries(fragments, b)
  {
    hide EntryAt;
    if a == [] {
      assert a + b == b;
    } else {
      EntriesSplit(fragments, a[1..], b);
      assert (a + b)[1..] == a[1..] + b;
      var head := match EntryAt(fragments, a[0]) case Some(e) => [e] case None => [];
      Associate(head, Entries(fragments, a[1..]), Entries(fragments, b));
    }
  }

  // Entries depend only on the files their keys name.
  lemma {:induction false} EntriesSame(f: map<string, Content>, g: map<string, Content>, keys: seq<Key>)
    requires forall i | 0 <= i < |keys| :: EntryAt(f, keys[i]) == EntryAt(g, keys[i])
    ensures Entries(f, keys) == Entries(g, keys)
  {
    hide EntryAt;
    if keys != [] { EntriesSame(f, g, keys[1..]); }
  }

  lemma WrittenFragment(e: Entry)
    requires WellFormed(e)
    ensures Fragment(Parsed(ToDict(e))) == Ok(Some(e)) && Usable(Parsed(ToDict(e)))
  {
    hide EntryFromDict, WellFormed, ToDict;
    RoundTrip(e);
  }

  lemma SortedElems(fragments: map<string, Content>, listing: seq<string>)
    requires IsListing(fragments, listing)
    ensures forall n | n in listing :: n in fragments
    ensures var sorted := Sort(Keys(fragments, listing), KeyLeq());
      forall k :: k in sorted <==> k.name in fragments && Usable(fragments[k.name]) && k == KeyOf(fragments, k.name)
  {
    hide Distinct, Sort, KeyLeq, Usable, KeyOf, TotalOrder, Sorted;
    ListingMembers(fragments, listing);
    KeysElems(fragments, listing);
    KeyOrder();
    SortCorrect(Keys(fragments, listing), KeyLeq());
    InElems(Sort(Keys(fragments, listing), KeyLeq()));
    InElems(Keys(fragments, listing));
  }

  lemma InElems<T>(s: seq<T>)
    ensures forall x :: x in s <==> x in Elems(s)
  {}

  // The sorted keys of the grown directory are the old ones with the new key slipped in.
  lemma AppendedKeys(fragments: map<string, Content>, listing: seq<string>, name: string, e: Entry, after: seq<string>)
      returns (i: nat)
    requires name !in fragments && WellFormed(e) && IsListing(fragments, listing)
    requires IsListing(fragments[name := Parsed(ToDict(e))], after)
    ensures (forall n | n in listing :: n in fragments)
        && (forall n | n in after :: n in fragments[name := Parsed(ToDict(e))])
    ensures var now := fragments[name := Parsed(ToDict(e))];
      var was := Sort(Keys(fragments, listing), KeyLeq());
      && i <= |was| && Usable(now[name])
      && Sort(Keys(now, after), KeyLeq()) == was[..i] + [KeyOf(now, name)] + was[i..]
  {
    hide Distinct, Sort, KeyLeq, TotalOrder, WellFormed, ToDict, Usable, KeyOf;
    var now := fragments[name := Parsed(ToDict(e))];
    ListingMembers(fragments, listing);
    ListingMembers(now, after);
    WrittenFragment(e);
    KeysElems(fragments, listing);
    KeysElems(now, after);
    KeyOrder();
    KeyOfSame(fragments, now);
    KeyOfName(now, name);
    var keys, more := Keys(fragments, listing), Keys(now, after);
    InElems(keys);
    InElems(more);
    assert Elems(more) == Elems(keys) + {KeyOf(now, name)};
    i := SortInserts(KeyOf(now, name), keys, more, KeyLeq());
  }

  lemma KeyOfSame(f: map<string, Content>, g: map<string, Content>)
    ensures forall n | n in f && n in g && f[n] == g[n] && Usable(f[n]) :: KeyOf(f, n) == KeyOf(g, n)
  {}

  // The timestamp of `e` compares with the timestamp of every parsed fragment.
  ghost predicate Fits(fragments: map<string, Content>, e: Entry) {
    forall n | n in fragments && Usable(fragments[n]) :: Compare(TimestampAt(fragments, n), Timestamp(e)).Some?
  }

  lemma AppendedSortable(fragments: map<string, Content>, name: string, e: Entry)
    requires name !in fragments && WellFormed(e)
    ensures Sortable(fragments[name := Parsed(ToDict(e))]) <==> Sortable(fragments) && Fits(fragments, e)
  {
    hide WellFormed, ToDict, Usable, Timestamp;
    var now := fragments[name := Parsed(ToDict(e))];
    WrittenFragment(e);
    assert TimestampAt(now, name) == Timestamp(e);
    SelfCompares(Timestamp(e));
    forall n | n in fragments && Usable(fragments[n])
      ensures n in now && Usable(now[n]) && TimestampAt(now, n) == TimestampAt(fragments, n)
      ensures Compare(Timestamp(e), TimestampAt(fragments, n)).Some?
          <==> Compare(TimestampAt(fragments, n), Timestamp(e)).Some?
    {
      CompareFlips(Canon(Timestamp(e)), Canon(TimestampAt(fragments, n)));
    }
    SortableSplit(fragments, now, name);
  }

  lemma SelfCompares(t: Json)
    ensures Compare(t, t).Some?
  {}

  lemma SortableSplit(f: map<string, Content>, g: map<string, Content>, name: string)
    requires name !in f && g.Keys == f.Keys + {name} && Usable(g[name])
    requires forall n | n in f :: g[n] == f[n]
    requires Compare(TimestampAt(g, name), TimestampAt(g, name)).Some?
    requires forall n | n in f && Usable(f[n]) ::
      Compare(TimestampAt(g, name), TimestampAt(f, n)).Some? <==> Compare(TimestampAt(f, n), TimestampAt(g, name)).Some?
    ensures Sortable(g) <==>
      Sortable(f) && forall n | n in f && Usable(f[n]) :: Compare(TimestampAt(f, n), TimestampAt(g, name)).Some?
  {
    hide Usable, Compare;
    forall n | n in f && Usable(f[n]) ensures TimestampAt(g, n) == TimestampAt(f, n) {}
  }

  // An append slips the new entry in at one position and keeps the order of all others; the
  // grown log loads exactly when the old one did and the new timestamp compares with the rest.
  lemma AppendInserts(s: Store, listing: seq<string>, name: string, e: Entry, after: seq<string>) returns (at: nat)
    requires IsListing(s.fragments, listing) && name !in s.fragments && WellFormed(e)
    requires IsListing(Add(s, name, e).fragments, after)
    ensures Loaded(Add(s, name, e), after).Ok? <==> Loaded(s, listing).Ok? && Fits(s.fragments, e)
    ensures Loaded(Add(s, name, e), after).Ok? ==>
      var es := Loaded(s, listing).value;
      at <= |es| && Loaded(Add(s, name, e), after) == Ok(es[..at] + [e] + es[at..])
  {
    hide Distinct, Sort, KeyLeq, WellFormed, ToDict, Usable, KeyOf, FlatEntries, Keys, IsListing, Sortable, Fits,
        NoCrash;
    var now := Add(s, name, e).fragments;
    ListingNames(s.fragments, listing);
    ListingNames(now, after);
    var sorted := Sort(Keys(s.fragments, listing), KeyLeq());
    var i := AppendedKeys(s.fragments, listing, name, e, after);
    AppendedCrash(s.fragments, name, e);
    AppendedSortable(s.fragments, name, e);
    AppendedEntries(s.fragments, listing, name, e, sorted, i);
    var legacy := FlatEntries(s.flat);
    at := 0;
    if legacy.Ok? {
      var front, back := Entries(s.fragments, sorted[..i]), Entries(s.fragments, sorted[i..]);
      at := |legacy.value| + |front|;
      var es := legacy.value + (front + back);
      assert es[..at] == legacy.value + front && es[at..] == back;
      assert legacy.value + (front + [e] + back) == es[..at] + [e] + es[at..];
    }
  }

  lemma ListingNames(fragments: map<string, Content>, listing: seq<string>)
    requires IsListing(fragments, listing)
    ensures forall n | n in listing :: n in fragments
  {
    ListingMembers(fragments, listing);
  }

  lemma AppendedCrash(fragments: map<string, Content>, name: string, e: Entry)
    requires name !in fragments && WellFormed(e)
    ensures NoCrash(fragments[name := Parsed(ToDict(e))]) <==> NoCrash(fragments)
  {
    hide WellFormed, ToDict, Fragment;
    WrittenFragment(e);
    var now := fragments[name := Parsed(ToDict(e))];
    assert forall n | n in fragments :: now[n] == fragments[n];
  }

  lemma AppendedEntries(fragments: map<string, Content>, listing: seq<string>, name: string, e: Entry,
                        sorted: seq<Key>, i: nat)
    requires name !in fragments && WellFormed(e) && IsListing(fragments, listing)
    requires forall n | n in listing :: n in fragments
    requires sorted == Sort(Keys(fragments, listing), KeyLeq()) && i <= |sorted|
    ensures var now := fragments[name := Parsed(ToDict(e))];
      && name in now && Usable(now[name])
      && Entries(fragments, sorted) == Entries(fragments, sorted[..i]) + Entries(fragments, sorted[i..])
      && Entries(now, sorted[..i] + [KeyOf(now, name)] + sorted[i..])
         == Entries(fragments, sorted[..i]) + [e] + Entries(fragments, sorted[i..])
  {
    hide Distinct, Sort, KeyLeq, WellFormed, ToDict, Usable, KeyOf, Fragment;
    var now := fragments[name := Parsed(ToDict(e))];
    WrittenFragment(e);
    SortedElems(fragments, listing);
    KeyOfName(now, name);
    var k := KeyOf(now, name);
    assert sorted == sorted[..i] + sorted[i..];
    EntriesSplit(fragments, sorted[..i], sorted[i..]);
    EntriesSplit(now, sorted[..i] + [k], sorted[i..]);
    EntriesSplit(now, sorted[..i], [k]);
    OneEntry(now, k, e);
    forall j | 0 <= j < |sorted| ensures EntryAt(fragments, sorted[j]) == EntryAt(now, sorted[j]) {
      assert sorted[j] in sorted;
    }
    EntriesSame(fragments, now, sorted[..i]);
    EntriesSame(fragments, now, sorted[i..]);
  }

  lemma OneEntry(fragments: map<string, Content>, k: Key, e: Entry)
    requires EntryAt(fragments, k) == Some(e)
    ensures Entries(fragments, [k]) == [e]
  {
    assert [k][1..] == [];
  }

  // Appends under distinct names commute, whatever order the directory is listed in.
  lemma AppendsCommute(s: Store, m: string, d: Entry, n: string, e: Entry, a: seq<string>, b: seq<string>)
    requires m != n
    requires IsListing(Add(Add(s, m, d), n, e).fragments, a) && IsListing(Add(Add(s, n, e), m, d).fragments, b)
    ensures Loaded(Add(Add(s, m, d), n, e), a) == Loaded(Add(Add(s, n, e), m, d), b)
  {
    hide Distinct, Sort, KeyLeq, ToDict, FlatEntries, Entries, NoCrash, Sortable;
    var x, y := Add(Add(s, m, d), n, e), Add(Add(s, n, e), m, d);
    assert x.fragments == y.fragments;
    ListingIrrelevant(x.fragments, a, b);
  }

  // ------------------------------------------------------------ updating

  // The first fragment, in filename order, whose entry has the id.
  function FindFragment(fragments: map<string, Content>, names: seq<string>, id: Json): Result<Option<string>>
    requires forall n | n in names :: n in fragments
  {
    if names == [] then Ok(None)
    else
      match Fragment(fragments[names[0]])
      case Err(x) => Err(x)
      case Ok(Some(e)) => if e.id == id then Ok(Some(names[0])) else FindFragment(fragments, names[1..], id)
      case Ok(None) => FindFragment(fragments, names[1..], id)
  }

  // The first position of the id in a list of entries, or its length.
  function FindEntry(es: seq<Entry>, id: Json): nat {
    if es == [] || es[0].id == id then 0 else 1 + FindEntry(es[1..], id)
  }

  // `update_entry`: only the file that backs the entry is rewritten.
  function Update(s: Store, names: seq<string>, id: Json, mutate: Entry -> Result<Entry>): Result<Store>
    requires forall n | n in names :: n in s.fragments
  {
    match FindFragment(s.fragments, names, id)
    case Err(x) => Err(x)
    case Ok(Some(n)) => (
      FoundFragment(s.fragments, names, id);
      match mutate(Fragment(s.fragments[n]).value.value)
      case Err(x) => Err(x)
      case Ok(e) => Ok(s.(fragments := s.fragments[n := Parsed(ToDict(e))])))
    case Ok(None) =>
      match FlatEntries(s.flat)
      case Err(x) => Err(x)
      case Ok(es) =>
        var i := FindEntry(es, id);
        FindEntryBound(es, id);
        if i == |es| then Err(KeyError)
        else
          match mutate(es[i])
          case Err(x) => Err(x)
          case Ok(e) => Ok(s.(flat := Some(Parsed(Arr(Dicts(es[i := e]))))))
  }

  lemma {:induction false} FindEntryBound(es: seq<Entry>, id: Json)
    ensures FindEntry(es, id) <= |es|
    ensures FindEntry(es, id) < |es| ==> es[FindEntry(es, id)].id == id
    ensures FindEntry(es, id) == |es| <==> forall i | 0 <= i < |es| :: es[i].id != id
  {
    if es != [] && es[0].id != id {
      FindEntryBound(es[1..], id);
      assert forall i | 0 < i < |es| :: es[i] == es[1..][i - 1];
    }
  }

  lemma {:induction false} FoundFragment(fragments: map<string, Content>, names: seq<string>, id: Json)
    requires forall n | n in names :: n in fragments
    ensures var f := FindFragment(fragments, names, id);
      && (f.Ok? && f.value.Some? ==>
           f.value.value in names && Usable(fragments[f.value.value])
           && Fragment(fragments[f.value.value]).value.value.id == id)
      && (f.Ok? && f.value.None? ==>
           forall n | n in names && Usable(fragments[n]) :: Fragment(fragments[n]).value.value.id != id)
      && ((forall n | n in names :: Fragment(fragments[n]).Ok?) ==> f.Ok?)
  {
    hide Fragment;
    if names != [] {
      FoundFragment(fragments, names[1..], id);
      assert forall n :: n in names <==> n == names[0] || n in names[1..];
    }
  }

  // `sorted(glob, key=name)`
  function NameLeq(): (string, string) -> bool {
    (a: string, b: string) => LexLeq(a, b)
  }

  function ByName(listing: seq<string>): seq<string> {
    Sort(listing, NameLeq())
  }

  lemma ByNameLists(fragments: map<string, Content>, listing: seq<string>)
    requires IsListing(fragments, listing)
    ensures IsListing(fragments, ByName(listing)) && forall n | n in ByName(listing) :: n in fragments
    ensures forall i, j | 0 <= i < j < |ByName(listing)| :: LexLeq(ByName(listing)[i], ByName(listing)[j])
  {
    hide Sort;
    NamesTotal();
    SortCorrect(listing, NameLeq());
    SortCanonical(listing, listing, NameLeq());
    ListingMembers(fragments, ByName(listing));
  }

  lemma NamesTotal()
    ensures TotalOrder(NameLeq())
  {
    var leq := NameLeq();
    forall a, b ensures leq(a, b) || leq(b, a) { LexTotal(a, b); }
    forall a, b | leq(a, b) && leq(b, a) ensures a == b { LexAntisymmetric(a, b); }
    forall a, b, c | leq(a, b) && leq(b, c) ensures leq(a, c) { LexTransitive(a, b, c); }
  }

  // A readable fragment file with an entry of that id.
  ghost predicate Holds(fragments: map<string, Content>, n: string, id: Json) {
    && n in fragments && fragments[n].Parsed? && EntryFromDict(fragments[n].json).Ok?
    && EntryFromDict(fragments[n].json).value.id == id
  }

  lemma {:induction false} FoundAt(fragments: map<string, Content>, names: seq<string>, id: Json) returns (k: nat)
    requires forall n | n in names :: n in fragments
    requires FindFragment(fragments, names, id).Ok? && FindFragment(fragments, names, id).value.Some?
    ensures k < |names| && names[k] == FindFragment(fragments, names, id).value.value && Holds(fragments, names[k], id)
    ensures forall i | 0 <= i < k :: !Holds(fragments, names[i], id)
  {
    hide EntryFromDict;
    k := 0;
    if !Holds(fragments, names[0], id) {
      k := FoundAt(fragments, names[1..], id);
      assert forall i | 0 < i < |names| :: names[i] == names[1..][i - 1];
      k := k + 1;
    }
  }

  lemma {:induction false} FirstEntry(es: seq<Entry>, id: Json)
    requires FindEntry(es, id) < |es|
    ensures forall k | 0 <= k < FindEntry(es, id) :: es[k].id != id
  {
    if es[0].id != id {
      FirstEntry(es[1..], id);
      assert forall k | 0 < k < |es| :: es[k] == es[1..][k - 1];
    }
  }

  // An update rewrites one file: the first fragment by name that holds the id, or, when none
  // does, the flat file at its first entry with the id.
  lemma UpdateMeans(s: Store, listing: seq<string>, id: Json, mutate: Entry -> Result<Entry>)
    requires IsListing(s.fragments, listing)
    ensures forall n | n in ByName(listing) :: n in s.fragments
    ensures Update(s, ByName(listing), id, mutate).Ok? ==>
      var t := Update(s, ByName(listing), id, mutate).value;
      || (exists n :: Holds(s.fragments, n, id) && (forall m | Holds(s.fragments, m, id) :: LexLeq(n, m))
            && var e := mutate(EntryFromDict(s.fragments[n].json).value);
               e.Ok? && t.flat == s.flat && t.fragments == s.fragments[n := Parsed(ToDict(e.value))])
      || ((forall n :: !Holds(s.fragments, n, id)) && FlatEntries(s.flat).Ok?
           && var es := FlatEntries(s.flat).value;
              exists i :: 0 <= i < |es| && es[i].id == id && (forall k | 0 <= k < i :: es[k].id != id)
                && mutate(es[i]).Ok? && t.fragments == s.fragments
                && t.flat == Some(Parsed(Arr(Dicts(es[i := mutate(es[i]).value])))))
  {
    hide Distinct, Sort, EntryFromDict, ToDict, FlatEntries, FindFragment, ByName, FindEntry, LexLeq;
    ByNameLists(s.fragments, listing);
    var names := ByName(listing);
    ListingMembers(s.fragments, names);
    FoundFragment(s.fragments, names, id);
    if Update(s, names, id, mutate).Ok? {
      if FindFragment(s.fragments, names, id).value.Some? {
        var k := FoundAt(s.fragments, names, id);
        forall m | Holds(s.fragments, m, id) ensures LexLeq(names[k], m) {
          var j :| 0 <= j < |names| && names[j] == m;
          if j == k { LexTotal(m, m); }
        }
      } else {
        var es := FlatEntries(s.flat).value;
        FindEntryBound(es, id);
        FirstEntry(es, id);
      }
    }
  }

  // A mutation that keeps the id, the timestamp and the shape of an entry.
  ghost predicate Preserving(mutate: Entry -> Result<Entry>) {
    forall e | WellFormed(e) && mutate(e).Ok? ::
      var m := mutate(e).value; WellFormed(m) && m.id == e.id && Timestamp(m) == Timestamp(e)
  }

  lemma {:induction false} EntriesIndexed(fragments: map<string, Content>, keys: seq<Key>)
    requires forall i | 0 <= i < |keys| :: EntryAt(fragments, keys[i]).Some?
    ensures |Entries(fragments, keys)| == |keys|
    ensures forall i | 0 <= i < |keys| :: Entries(fragments, keys)[i] == EntryAt(fragments, keys[i]).value
  {
    hide EntryAt;
    if keys != [] { EntriesIndexed(fragments, keys[1..]); }
  }

  lemma {:induction false} KeysSame(f: map<string, Content>, g: map<string, Content>, listing: seq<string>)
    requires forall n | n in listing :: n in f && n in g
    requires forall n | n in listing :: Usable(f[n]) == Usable(g[n]) && (Usable(f[n]) ==> KeyOf(f, n) == KeyOf(g, n))
    ensures Keys(f, listing) == Keys(g, listing)
  {
    hide Usable, KeyOf;
    if listing != [] { KeysSame(f, g, listing[1..]); }
  }

  lemma RewrittenKey(f: map<string, Content>, n: string, e: Entry)
    requires n in f && Usable(f[n]) && WellFormed(e) && Timestamp(e) == Timestamp(Fragment(f[n]).value.value)
    ensures var g := f[n := Parsed(ToDict(e))];
      Usable(g[n]) && KeyOf(g, n) == KeyOf(f, n) && Fragment(g[n]) == Ok(Some(e))
  {
    hide WellFormed, ToDict, Timestamp, EntryFromDict;
    WrittenFragment(e);
  }

  // Rewriting one fragment with an entry of the same timestamp changes the one position of
  // the sorted list that this file holds.
  lemma RewriteFragment(f: map<string, Content>, listing: seq<string>, n: string, e: Entry) returns (j: nat)
    requires IsListing(f, listing) && n in f && Usable(f[n]) && WellFormed(e)
    requires Timestamp(e) == Timestamp(Fragment(f[n]).value.value)
    ensures (forall x | x in listing :: x in f) && IsListing(f[n := Parsed(ToDict(e))], listing)
    ensures var g := f[n := Parsed(ToDict(e))];
      var sorted := Sort(Keys(f, listing), KeyLeq());
      && Keys(g, listing) == Keys(f, listing)
      && j < |Entries(f, sorted)| && Entries(f, sorted)[j] == Fragment(f[n]).value.value
      && Entries(g, sorted) == Entries(f, sorted)[j := e]
  {
    hide Distinct, Sort, KeyLeq, WellFormed, ToDict, Usable, KeyOf, Fragment, Timestamp;
    var g := f[n := Parsed(ToDict(e))];
    assert g.Keys == f.Keys;
    ListingMembers(f, listing);
    RewrittenKey(f, n, e);
    KeyOfSame(f, g);
    KeysSame(f, g, listing);
    SortedElems(f, listing);
    var sorted := Sort(Keys(f, listing), KeyLeq());
    KeyOfName(f, n);
    assert KeyOf(f, n) in sorted;
    j :| 0 <= j < |sorted| && sorted[j] == KeyOf(f, n);
    SortedDistinct(f, listing);
    AtKeys(f, g, sorted, n, j);
  }

  lemma SortedDistinct(f: map<string, Content>, listing: seq<string>)
    requires IsListing(f, listing)
    ensures forall n | n in listing :: n in f
    ensures Distinct(Sort(Keys(f, listing), KeyLeq()))
  {
    hide Sort, KeyLeq, Usable, KeyOf, TotalOrder, Distinct;
    ListingMembers(f, listing);
    KeysElems(f, listing);
    KeyOrder();
    SortCanonical(Keys(f, listing), Keys(f, listing), KeyLeq());
  }

  lemma AtKeys(f: map<string, Content>, g: map<string, Content>, sorted: seq<Key>, n: string, j: nat)
    requires n in f && n in g && Usable(f[n]) && Usable(g[n])
    requires forall x | x in f && x != n :: x in g && g[x] == f[x]
    requires forall k | k in sorted :: k.name in f && Usable(f[k.name]) && k == KeyOf(f, k.name)
    requires Distinct(sorted) && j < |sorted| && sorted[j] == KeyOf(f, n)
    ensures |Entries(f, sorted)| == |sorted|
    ensures Entries(f, sorted)[j] == Fragment(f[n]).value.value
    ensures Entries(g, sorted) == Entries(f, sorted)[j := Fragment(g[n]).value.value]
  {
    hide Fragment, KeyOf;
    KeyOfName(f, n);
    forall i | 0 <= i < |sorted|
      ensures EntryAt(f, sorted[i]).Some? && EntryAt(g, sorted[i]).Some?
      ensures i != j ==> EntryAt(g, sorted[i]) == EntryAt(f, sorted[i])
    {
      assert sorted[i] in sorted;
    }
    EntriesIndexed(f, sorted);
    EntriesIndexed(g, sorted);
  }

  // Updating with an id- and timestamp-preserving mutation changes exactly one position of
  // the logical log, one that carries the id.
  lemma UpdateChangesOne(s: Store, listing: seq<string>, names: seq<string>, id: Json, mutate: Entry -> Result<Entry>)
      returns (i: nat)
    requires IsListing(s.fragments, listing) && (forall n | n in names :: n in s.fragments)
    requires Preserving(mutate) && Loaded(s, listing).Ok? && Update(s, names, id, mutate).Ok?
    ensures IsListing(Update(s, names, id, mutate).value.fragments, listing)
    ensures var es := Loaded(s, listing).value;
      && i < |es| && es[i].id == id && mutate(es[i]).Ok?
      && Loaded(Update(s, names, id, mutate).value, listing) == Ok(es[i := mutate(es[i]).value])
  {
    hide Distinct, Sort, KeyLeq, WellFormed, ToDict, Fragment, FlatEntries, Timestamp, FindFragment, Entries, Keys,
        Sortable;
    ListingMembers(s.fragments, listing);
    LoadWellFormed(s, listing);
    FoundFragment(s.fragments, names, id);
    var legacy := FlatEntries(s.flat).value;
    var found := FindFragment(s.fragments, names, id).value;
    if found.Some? {
      var n := found.value;
      var e := Fragment(s.fragments[n]).value.value;
      FragmentWellFormed(s.fragments[n]);
      var j := RewriteFragment(s.fragments, listing, n, mutate(e).value);
      WrittenFragment(mutate(e).value);
      RewrittenCrash(s.fragments, n, mutate(e).value);
      RewrittenSortable(s.fragments, n, mutate(e).value);
      i := |legacy| + j;
      var frags := Entries(s.fragments, Sort(Keys(s.fragments, listing), KeyLeq()));
      assert (legacy + frags)[i := mutate(e).value] == legacy + frags[j := mutate(e).value];
    } else {
      i := FindEntry(legacy, id);
      FindEntryBound(legacy, id);
      FlatOfDicts(legacy[i := mutate(legacy[i]).value]);
      var frags := Entries(s.fragments, Sort(Keys(s.fragments, listing), KeyLeq()));
      assert (legacy + frags)[i] == legacy[i];
      assert (legacy + frags)[i := mutate(legacy[i]).value] == legacy[i := mutate(legacy[i]).value] + frags;
    }
  }

  lemma RewrittenCrash(f: map<string, Content>, n: string, e: Entry)
    requires n in f && WellFormed(e) && NoCrash(f)
    ensures NoCrash(f[n := Parsed(ToDict(e))])
  {
    hide WellFormed, ToDict, Fragment;
    WrittenFragment(e);
  }

  lemma RewrittenSortable(f: map<string, Content>, n: string, e: Entry)
    requires n in f && Usable(f[n]) && WellFormed(e) && Timestamp(e) == TimestampAt(f, n) && Sortable(f)
    ensures Sortable(f[n := Parsed(ToDict(e))])
  {
    hide WellFormed, ToDict, Timestamp, Compare, Usable;
    WrittenFragment(e);
    var g := f[n := Parsed(ToDict(e))];
    forall m | m in g && Usable(g[m]) ensures m in f && Usable(f[m]) && TimestampAt(g, m) == TimestampAt(f, m) {}
  }

  // On a log that loads, an update without a matching entry is a KeyError, and a matching
  // entry is found.
  lemma UpdateFindsIff(s: Store, listing: seq<string>, names: seq<string>, id: Json, mutate: Entry -> Result<Entry>)
    requires IsListing(s.fragments, listing) && IsListing(s.fragments, names)
    requires Loaded(s, listing).Ok? && forall e :: mutate(e).Ok?
    ensures forall n | n in names :: n in s.fragments
    ensures Update(s, names, id, mutate).Ok? <==> HasId(Loaded(s, listing).value, id)
    ensures Update(s, names, id, mutate).Err? ==> Update(s, names, id, mutate) == Err(KeyError)
  {
    hide Distinct, Sort, KeyLeq, ToDict, Fragment, FlatEntries, FindFragment, Entries, Keys, KeyOf, HasId, Sortable;
    ListingMembers(s.fragments, listing);
    ListingMembers(s.fragments, names);
    FoundFragment(s.fragments, names, id);
    var legacy := FlatEntries(s.flat).value;
    var frags := Entries(s.fragments, Sort(Keys(s.fragments, listing), KeyLeq()));
    FindEntryBound(legacy, id);
    FindEntryIff(legacy, id);
    FragmentIds(s.fragments, listing, id);
    EitherHasId(legacy, frags, id);
  }

  ghost predicate HasId(es: seq<Entry>, id: Json) {
    exists i :: 0 <= i < |es| && es[i].id == id
  }

  lemma FindEntryIff(es: seq<Entry>, id: Json)
    ensures FindEntry(es, id) == |es| <==> !HasId(es, id)
  {
    FindEntryBound(es, id);
  }

  lemma EitherHasId(a: seq<Entry>, b: seq<Entry>, id: Json)
    ensures HasId(a + b, id) <==> HasId(a, id) || HasId(b, id)
  {
    forall i | 0 <= i < |a| ensures (a + b)[i] == a[i] {}
    forall i | 0 <= i < |b| ensures (a + b)[|a| + i] == b[i] {}
  }

  lemma FragmentIds(fragments: map<string, Content>, listing: seq<string>, id: Json)
    requires IsListing(fragments, listing)
    ensures forall n | n in listing :: n in fragments
    ensures HasId(Entries(fragments, Sort(Keys(fragments, listing), KeyLeq())), id) <==>
      (exists n :: n in fragments && Usable(fragments[n]) && Fragment(fragments[n]).value.value.id == id)
  {
    hide Distinct, Sort, KeyLeq, KeyOf, Fragment;
    SortedElems(fragments, listing);
    var sorted := Sort(Keys(fragments, listing), KeyLeq());
    forall i | 0 <= i < |sorted| ensures EntryAt(fragments, sorted[i]).Some? {
      assert sorted[i] in sorted;
    }
    EntriesIndexed(fragments, sorted);
    forall n | n in fragments && Usable(fragments[n])
      ensures exists i :: 0 <= i < |sorted| && sorted[i].name == n
    {
      KeyOfName(fragments, n);
      assert KeyOf(fragments, n) in sorted;
    }
  }

  /** The log on disk. */
  class DecisionLog {
    var flat: Option<Content>
    var fragments: map<string, Content>

    function State(): Store
      reads this
    {
      Store(flat, fragments)
    }

    method LoadDecisions(listing: seq<string>) returns (r: Result<seq<Entry>>)
      requires IsListing(fragments, listing)
      ensures r == Loaded(State(), listing)
    {
      var legacy := FlatEntries(flat);
      if legacy.Err? { return legacy; }
      var loaded := LoadFragments(fragments, listing);
      if loaded.Err? { return loaded; }
      return Ok(legacy.value + loaded.value);
    }

    // Rewrites the flat file and clears every fragment, malformed ones included.
    method SaveDecisions(entries: seq<Entry>)
      modifies this
      ensures State() == Save(entries)
      ensures fragments == map[] && flat.Some? && flat.value.Parsed? && flat.value.json.Arr?
      ensures |flat.value.json.items| == |entries|
      ensures forall i | 0 <= i < |entries| :: flat.value.json.items[i] == ToDict(entries[i])
    {
      hide ToDict;
      flat := Some(Parsed(Arr(Dicts(entries))));
      DictsAt(entries);
      var todo := fragments.Keys;
      while todo != {}
        invariant todo == fragments.Keys && flat == Some(Parsed(Arr(Dicts(entries))))
        decreases todo
      {
        var f :| f in todo;
        todo := todo - {f};
        fragments := fragments - {f};
      }
    }

    // Writes one new file; the flat file and the other fragments stay untouched.
    method AddEntry(name: string, e: Entry)
      requires name !in fragments
      modifies this`fragments
      ensures State() == Add(old(State()), name, e)
      ensures flat == old(flat) && fragments == old(fragments)[name := Parsed(ToDict(e))]
    {
      fragments := fragments[name := Parsed(ToDict(e))];
    }

    // Any error, one raised by `mutate` included, leaves both sources untouched.
    method UpdateEntry(listing: seq<string>, id: Json, mutate: Entry -> Result<Entry>) returns (error: Option<Error>)
      requires IsListing(fragments, listing)
      modifies this
      ensures forall n | n in ByName(listing) :: n in old(fragments)
      ensures error.None? ==> Update(old(State()), ByName(listing), id, mutate) == Ok(State())
      ensures error.Some? ==>
        Update(old(State()), ByName(listing), id, mutate) == Err(error.value) && State() == old(State())
    {
      hide ToDict, Fragment, FlatEntries, Usable, ByName, Sort, IsListing, LexLeq;
      var names := ByName(listing);
      ByNameLists(fragments, listing);
      for k := 0 to |names|
        invariant State() == old(State())
        invariant FindFragment(fragments, names[k..], id) == FindFragment(fragments, names, id)
      {
        assert names[k..][1..] == names[k + 1..];
        var f := Fragment(fragments[names[k]]);
        if f.Err? {
          return Some(f.error);
        } else if f.value.Some? && f.value.value.id == id {
          var m := mutate(f.value.value);
          if m.Err? { return Some(m.error); }
          fragments := fragments[names[k] := Parsed(ToDict(m.value))];
          return None;
        }
      }
      var es := FlatEntries(flat);
      if es.Err? { return Some(es.error); }
      var i := 0;
      while i < |es.value|
        invariant 0 <= i <= |es.value| && State() == old(State())
        invariant FindEntry(es.value, id) == i + FindEntry(es.value[i..], id)
      {
        assert es.value[i..][1..] == es.value[i + 1..];
        if es.value[i].id == id {
          var m := mutate(es.value[i]);
          if m.Err? { return Some(m.error); }
          flat := Some(Parsed(Arr(Dicts(es.value[i := m.value]))));
          return None;
        }
        i := i + 1;
      }
      return Some(KeyError);
    }
  }
}
