/** Saving component settings: compare-and-set per setting, all or nothing, with ordered pairs. */
module Settings {
  import opened Wrappers

  const MAX_BATCH := 100

  datatype Row = Row(value: string, kind: string, secret: bool, updatedAt: nat, updatedBy: string)

  /** What a client is shown of a row: a secret's value is withheld. */
  datatype View = View(value: Option<string>, kind: string, secret: bool, hasValue: bool,
                       updatedAt: nat, updatedBy: string)

  datatype Key = Key(component: string, name: string)

  type Table = map<Key, Row>

  datatype Expectation = Unchecked | Expect(view: Option<View>)

  datatype Item = Item(key: Key, value: string, kind: string, secret: bool, expectation: Expectation)

  datatype Reply = BadRequest | Conflict | Saved(rows: seq<View>)

  function Shown(row: Row): View {
    View(if row.secret then None else Some(row.value), row.kind, row.secret, row.value != "",
         row.updatedAt, row.updatedBy)
  }

  function Seen(table: Table, key: Key): Option<View> {
    if key in table then Some(Shown(table[key])) else None
  }

  predicate AsExpected(table: Table, item: Item) {
    item.expectation.Expect? ==> item.expectation.view == Seen(table, item.key)
  }

  predicate KeysDiffer(items: seq<Item>) {
    forall i, k | 0 <= i < k < |items| :: items[i].key != items[k].key
  }

  function Written(item: Item, now: nat, author: string): Row {
    Row(item.value, item.kind, item.secret, now, author)
  }

  /** The table after the first items of a batch are written; item i is stamped `clock(i)`. */
  function Upserted(table: Table, items: seq<Item>, author: string, clock: nat -> nat): Table {
    if items == [] then table
    else
      var n := |items| - 1;
      Upserted(table, items[..n], author, clock)[items[n].key := Written(items[n], clock(n), author)]
  }

  // ----- the ordered pairs -----

  const PAIRS: seq<(string, string)> := [
    ("option_a_min_experience", "option_a_max_experience"),
    ("option_a_min_projects", "option_a_max_projects"),
    ("keyword_selection_min_words", "keyword_selection_max_words")
  ]

  function Default(name: string): real {
    if name == "option_a_min_experience" then 2.0
    else if name == "option_a_max_experience" then 4.0
    else if name == "option_a_max_projects" || name == "keyword_selection_max_words" then 3.0
    else 1.0
  }

  function Stored(table: Table, name: string): Option<string> {
    var key := Key("c2", name);
    if key in table then Some(table[key].value) else None
  }

  /** The number a setting is read as: its default when absent or empty, nothing when not a number. */
  function Reading(text: Option<string>, name: string, parse: string -> Option<real>): Option<real> {
    if text.None? || text.value == "" then Some(Default(name)) else parse(text.value)
  }

  predicate InOrder(low: Option<string>, high: Option<string>, pair: (string, string),
                    parse: string -> Option<real>)
  {
    var l, h := Reading(low, pair.0, parse), Reading(high, pair.1, parse);
    l.Some? && h.Some? && l.value <= h.value
  }

  predicate PairHolds(table: Table, pair: (string, string), parse: string -> Option<real>) {
    InOrder(Stored(table, pair.0), Stored(table, pair.1), pair, parse)
  }

  ghost predicate PairsHold(table: Table, parse: string -> Option<real>) {
    forall i | 0 <= i < |PAIRS| :: PairHolds(table, PAIRS[i], parse)
  }

  ghost predicate Touches(items: seq<Item>, name: string) {
    exists i | 0 <= i < |items| :: items[i].key == Key("c2", name)
  }

  /** The batch leaves every pair it touches in order. */
  ghost predicate TouchedPairsHold(table: Table, items: seq<Item>, author: string, clock: nat -> nat,
                                   parse: string -> Option<real>)
  {
    forall i | 0 <= i < |PAIRS| && (Touches(items, PAIRS[i].0) || Touches(items, PAIRS[i].1)) ::
      PairHolds(Upserted(table, items, author, clock), PAIRS[i], parse)
  }

  ghost predicate Acceptable(table: Table, items: seq<Item>, author: string, clock: nat -> nat,
                             valid: Item -> bool, parse: string -> Option<real>)
  {
    && 1 <= |items| <= MAX_BATCH && (forall i | 0 <= i < |items| :: valid(items[i]))
    && KeysDiffer(items)
    && (forall i | 0 <= i < |items| :: AsExpected(table, items[i]))
    && TouchedPairsHold(table, items, author, clock, parse)
  }

  lemma {:induction false} UpsertedAt(table: Table, items: seq<Item>, author: string, clock: nat -> nat, key: Key)
    requires forall i | 0 <= i < |items| :: items[i].key != key
    ensures (key in Upserted(table, items, author, clock) <==> key in table)
    ensures key in table ==> Upserted(table, items, author, clock)[key] == table[key]
  {
    if items != [] { UpsertedAt(table, items[..|items|-1], author, clock, key); }
  }

  lemma {:induction false} UpsertedItem(table: Table, items: seq<Item>, author: string, clock: nat -> nat, k: nat)
    requires KeysDiffer(items) && k < |items|
    ensures items[k].key in Upserted(table, items, author, clock)
    ensures Upserted(table, items, author, clock)[items[k].key] == Written(items[k], clock(k), author)
  {
    if k < |items| - 1 { UpsertedItem(table, items[..|items|-1], author, clock, k); }
  }

  /** An accepted batch keeps low at most high for every pair, touched or not. */
  lemma AcceptedKeepsPairs(table: Table, items: seq<Item>, author: string, clock: nat -> nat,
                           valid: Item -> bool, parse: string -> Option<real>)
    requires PairsHold(table, parse) && Acceptable(table, items, author, clock, valid, parse)
    ensures PairsHold(Upserted(table, items, author, clock), parse)
  {
    forall i | 0 <= i < |PAIRS| ensures PairHolds(Upserted(table, items, author, clock), PAIRS[i], parse) {
      var (low, high) := PAIRS[i];
      if !Touches(items, low) && !Touches(items, high) {
        UpsertedAt(table, items, author, clock, Key("c2", low));
        UpsertedAt(table, items, author, clock, Key("c2", high));
        assert PairHolds(table, PAIRS[i], parse);
      }
    }
  }

  lemma DefaultsHold(parse: string -> Option<real>)
    ensures PairsHold(map[], parse)
  {
  }

  datatype Save = Save(items: seq<Item>, author: string, clock: nat -> nat)

  /** The table after a history of save requests, accepted or refused. */
  ghost function History(saves: seq<Save>, valid: Item -> bool, parse: string -> Option<real>): Table {
    if saves == [] then map[]
    else
      var before := History(saves[..|saves|-1], valid, parse);
      var s := saves[|saves|-1];
      if Acceptable(before, s.items, s.author, s.clock, valid, parse)
      then Upserted(before, s.items, s.author, s.clock) else before
  }

  /** Whatever is requested, the pairs stay in order. */
  lemma {:induction false} PairsAlwaysHold(saves: seq<Save>, valid: Item -> bool, parse: string -> Option<real>)
    ensures PairsHold(History(saves, valid, parse), parse)
  {
    if saves == [] {
      DefaultsHold(parse);
    } else {
      PairsAlwaysHold(saves[..|saves|-1], valid, parse);
      var before := History(saves[..|saves|-1], valid, parse);
      var s := saves[|saves|-1];
      if Acceptable(before, s.items, s.author, s.clock, valid, parse) {
        AcceptedKeepsPairs(before, s.items, s.author, s.clock, valid, parse);
      }
    }
  }

  /** No lost update: after a save with a later stamp, a batch that still expects the old row is refused. */
  lemma StaleBatchIsRefused(table: Table, first: seq<Item>, author: string, clock: nat -> nat, k: nat,
                            second: seq<Item>, author2: string, clock2: nat -> nat, m: nat,
                            valid: Item -> bool, parse: string -> Option<real>)
    requires Acceptable(table, first, author, clock, valid, parse) && k < |first| && m < |second|
    requires second[m].key == first[k].key && second[m].expectation == Expect(Seen(table, first[k].key))
    requires first[k].key in table ==> table[first[k].key].updatedAt < clock(k)
    ensures !Acceptable(Upserted(table, first, author, clock), second, author2, clock2, valid, parse)
  {
    UpsertedItem(table, first, author, clock, k);
    assert !AsExpected(Upserted(table, first, author, clock), second[m]);
  }

  // ----- the save -----

  class SettingsTable {
    var table: Table

    constructor ()
      ensures table == map[]
    {
      table := map[];
    }

    method CheckExpectations(items: seq<Item>) returns (ok: bool)
      ensures ok <==> forall i | 0 <= i < |items| :: AsExpected(table, items[i])
    {
      for i := 0 to |items|
        invariant forall k | 0 <= k < i :: AsExpected(table, items[k])
      {
        if !AsExpected(table, items[i]) { return false; }
      }
      ok := true;
    }

    method CheckPairs(items: seq<Item>, author: string, clock: nat -> nat, parse: string -> Option<real>)
      returns (ok: bool)
      requires KeysDiffer(items)
      ensures ok <==> TouchedPairsHold(table, items, author, clock, parse)
    {
      hide InOrder, Upserted, Stored;
      var merged := MergeUpdates(items);
      for i := 0 to |PAIRS|
        invariant forall k | 0 <= k < i && (Touches(items, PAIRS[k].0) || Touches(items, PAIRS[k].1)) ::
                    PairHolds(Upserted(table, items, author, clock), PAIRS[k], parse)
      {
        var (low, high) := PAIRS[i];
        if low in merged || high in merged {
          var lowText := if low in merged then Some(merged[low]) else Stored(table, low);
          var highText := if high in merged then Some(merged[high]) else Stored(table, high);
          MergedIsResult(table, items, author, clock, merged, low);
          MergedIsResult(table, items, author, clock, merged, high);
          assert PairHolds(Upserted(table, items, author, clock), PAIRS[i], parse)
              == InOrder(lowText, highText, PAIRS[i], parse);
          if !InOrder(lowText, highText, PAIRS[i], parse) { return false; }
        }
      }
      ok := true;
    }

    method WriteAll(items: seq<Item>, author: string, clock: nat -> nat) returns (rows: seq<View>)
      modifies this
      ensures table == Upserted(old(table), items, author, clock)
      ensures |rows| == |items|
      ensures forall i | 0 <= i < |items| :: rows[i] == Shown(Written(items[i], clock(i), author))
    {
      rows := [];
      for i := 0 to |items|
        invariant table == Upserted(old(table), items[..i], author, clock)
        invariant |rows| == i && forall k | 0 <= k < i :: rows[k] == Shown(Written(items[k], clock(k), author))
      {
        assert items[..i + 1][..i] == items[..i];
        table := table[items[i].key := Written(items[i], clock(i), author)];
        rows := rows + [Shown(table[items[i].key])];
      }
      assert items[..|items|] == items;
    }

    /** All checks come before the first write; a refused batch changes nothing. */
    method Save(items: seq<Item>, author: string, clock: nat -> nat, valid: Item -> bool,
                parse: string -> Option<real>)
      returns (reply: Reply)
      modifies this
      ensures reply.Saved? <==> Acceptable(old(table), items, author, clock, valid, parse)
      ensures table == if reply.Saved? then Upserted(old(table), items, author, clock) else old(table)
      ensures reply.Saved? ==> 1 <= |items| <= 100 && |reply.rows| == |items|
      ensures reply.Saved? ==>
                forall i | 0 <= i < |items| ::
                  reply.rows[i] == View(if items[i].secret then None else Some(items[i].value), items[i].kind,
                                        items[i].secret, items[i].value != "", clock(i), author)
      ensures reply.Conflict? <==>
                && 1 <= |items| <= 100 && (forall i | 0 <= i < |items| :: valid(items[i])) && KeysDiffer(items)
                && exists i | 0 <= i < |items| :: !AsExpected(old(table), items[i])
    {
      hide TouchedPairsHold, AsExpected, Upserted;
      if items == [] || |items| > MAX_BATCH { return BadRequest; }
      for i := 0 to |items|
        invariant forall k | 0 <= k < i :: valid(items[k])
      {
        if !valid(items[i]) { return BadRequest; }
      }
      if !KeysDiffer(items) { return BadRequest; }
      var asExpected := CheckExpectations(items);
      if !asExpected { return Conflict; }
      var inOrder := CheckPairs(items, author, clock, parse);
      if !inOrder { return BadRequest; }
      var rows := WriteAll(items, author, clock);
      reply := Saved(rows);
    }
  }

  /** The batch's values for component c2, by name. */
  method MergeUpdates(items: seq<Item>) returns (merged: map<string, string>)
    requires KeysDiffer(items)
    ensures forall name :: name in merged <==> Touches(items, name)
    ensures forall k | 0 <= k < |items| && items[k].key.component == "c2" ::
              items[k].key.name in merged && merged[items[k].key.name] == items[k].value
  {
    merged := map[];
    for i := 0 to |items|
      invariant forall name :: name in merged <==> Touches(items[..i], name)
      invariant forall k | 0 <= k < i && items[k].key.component == "c2" ::
                  items[k].key.name in merged && merged[items[k].key.name] == items[k].value
    {
      assert items[..i + 1] == items[..i] + [items[i]];
      TouchesMore(items[..i], items[i]);
      if items[i].key.component == "c2" { merged := merged[items[i].key.name := items[i].value]; }
    }
    assert items[..|items|] == items;
  }

  lemma TouchesMore(items: seq<Item>, item: Item)
    ensures forall name :: Touches(items + [item], name) <==> Touches(items, name) || item.key == Key("c2", name)
  {
    forall name ensures Touches(items + [item], name) <==> Touches(items, name) || item.key == Key("c2", name) {
      if Touches(items, name) {
        var i :| 0 <= i < |items| && items[i].key == Key("c2", name);
        assert (items + [item])[i] == items[i];
      }
      if item.key == Key("c2", name) { assert (items + [item])[|items|] == item; }
    }
  }

  /** The values read before writing are the values stored after it. */
  lemma MergedIsResult(table: Table, items: seq<Item>, author: string, clock: nat -> nat,
                       merged: map<string, string>, name: string)
    requires KeysDiffer(items)
    requires forall n :: n in merged <==> Touches(items, n)
    requires forall k | 0 <= k < |items| && items[k].key.component == "c2" ::
               items[k].key.name in merged && merged[items[k].key.name] == items[k].value
    ensures Stored(Upserted(table, items, author, clock), name)
            == if name in merged then Some(merged[name]) else Stored(table, name)
  {
    if name in merged {
      var k :| 0 <= k < |items| && items[k].key == Key("c2", name);
      UpsertedItem(table, items, author, clock, k);
    } else {
      UpsertedAt(table, items, author, clock, Key("c2", name));
    }
  }
}
