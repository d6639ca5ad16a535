/** What clients of the settings see, what a save leaves stored, and which numbers it lets pass. */
module SettingsClients {
  import opened Wrappers
  import opened Settings

  // ----- what is shown -----

  /** Every column of a row is shown, but of a secret's value only whether there is one. */
  lemma OnlySecretsAreWithheld(row: Row)
    ensures var v := Shown(row);
            && v.kind == row.kind && v.secret == row.secret && v.updatedAt == row.updatedAt
            && v.updatedBy == row.updatedBy && (v.hasValue <==> row.value != "")
            && (!row.secret ==> v.value == Some(row.value)) && (row.secret ==> v.value.None?)
  {
  }

  /** Two tables that differ in the values of secrets only. */
  ghost predicate AlikeButSecrets(a: Table, b: Table) {
    a.Keys == b.Keys
    && forall key | key in a ::
         a[key] == b[key] || (a[key].secret && a[key].value != "" && b[key].value != ""
                              && b[key] == a[key].(value := b[key].value))
  }

  /** No one can tell secrets apart by reading, nor by what a save is told to expect. */
  lemma SecretsDoNotShow(a: Table, b: Table, key: Key, item: Item)
    requires AlikeButSecrets(a, b)
    ensures Seen(a, key) == Seen(b, key) && (AsExpected(a, item) <==> AsExpected(b, item))
  {
  }

  /** A save is as expected exactly if it expects nothing, or no row where there is none, or the row as shown. */
  lemma ExpectationMeans(table: Table, item: Item)
    ensures AsExpected(table, item) <==>
              match item.expectation
              case Unchecked => true
              case Expect(None) => item.key !in table
              case Expect(Some(view)) =>
                && item.key in table
                && var row := table[item.key];
                   view.kind == row.kind && view.secret == row.secret && view.updatedAt == row.updatedAt
                   && view.updatedBy == row.updatedBy && view.hasValue == (row.value != "")
                   && view.value == if row.secret then None else Some(row.value)
  {
  }

  // ----- what is stored -----

  /** After a save each item's row is what the item says, by its author and time; every other row is as it was. */
  lemma SavedIsStored(table: Table, items: seq<Item>, author: string, clock: nat -> nat)
    requires KeysDiffer(items)
    ensures var after := Upserted(table, items, author, clock);
            && (forall k | 0 <= k < |items| ::
                  && items[k].key in after
                  && var row := after[items[k].key];
                     row.value == items[k].value && row.kind == items[k].kind && row.secret == items[k].secret
                     && row.updatedAt == clock(k) && row.updatedBy == author)
            && forall key: Key | (forall k | 0 <= k < |items| :: items[k].key != key) ::
                 && (key in after <==> key in table) && (key in table ==> after[key] == table[key])
  {
    forall k | 0 <= k < |items| { UpsertedItem(table, items, author, clock, k); }
    forall key: Key | forall k | 0 <= k < |items| :: items[k].key != key {
      UpsertedAt(table, items, author, clock, key);
    }
  }

  // ----- which numbers pass -----

  const LOWS: set<string> := {"option_a_min_experience", "option_a_min_projects", "keyword_selection_min_words"}
  const HIGHS: set<string> := {"option_a_max_experience", "option_a_max_projects", "keyword_selection_max_words"}

  /** The bound a lone setting is held against when its partner is not set. */
  predicate WithinDefault(name: string, x: real) {
    match name
    case "option_a_min_experience" => x <= 4.0
    case "option_a_max_experience" => x >= 2.0
    case "option_a_min_projects" => x <= 3.0
    case "option_a_max_projects" => x >= 1.0
    case "keyword_selection_min_words" => x <= 3.0
    case "keyword_selection_max_words" => x >= 1.0
    case _ => true
  }

  lemma PairNames(p: (string, string))
    requires p in PAIRS
    ensures p == PAIRS[0] || p == PAIRS[1] || p == PAIRS[2]
    ensures p.0 != p.1
  {
    assert |p.0| == |p.1| && p.0[|p.0| - 1] == p.1[|p.1| - 1];
  }

  /** The first setting saved is held against its partner's default; a text that is no number is refused. */
  lemma LoneSettingIsBounded(name: string, value: string, kind: string, author: string, clock: nat -> nat,
                             valid: Item -> bool, parse: string -> Option<real>)
    requires value != "" && name in LOWS + HIGHS
    ensures var item := Item(Key("c2", name), value, kind, false, Unchecked);
            Acceptable(map[], [item], author, clock, valid, parse) <==>
              valid(item) && parse(value).Some? && WithinDefault(name, parse(value).value)
  {
    hide WithinDefault, PAIRS, Reading, InOrder;
    var item := Item(Key("c2", name), value, kind, false, Unchecked);
    var after := Upserted(map[], [item], author, clock);
    assert [item][..0] == [] && Upserted(map[], [item][..0], author, clock) == map[];
    assert after == map[item.key := Written(item, clock(0), author)];
    forall other: string ensures Touches([item], other) <==> other == name {
      if other == name { assert [item][0].key == Key("c2", other); }
    }
    hide Upserted, Touches;
    forall i | 0 <= i < |PAIRS| && (PAIRS[i].0 == name || PAIRS[i].1 == name)
      ensures PairHolds(after, PAIRS[i], parse) <==> parse(value).Some? && WithinDefault(name, parse(value).value)
    {
      LonePair(PAIRS[i], name, value, parse);
    }
    var k := PairNamed(name);
  }

  lemma PairNamed(name: string) returns (k: nat)
    requires name in LOWS + HIGHS
    ensures k < |PAIRS| && (PAIRS[k].0 == name || PAIRS[k].1 == name)
  {
    k := if name == PAIRS[0].0 || name == PAIRS[0].1 then 0
         else if name == PAIRS[1].0 || name == PAIRS[1].1 then 1
         else 2;
  }

  lemma LonePair(p: (string, string), name: string, value: string, parse: string -> Option<real>)
    requires p in PAIRS && (name == p.0 || name == p.1) && value != ""
    ensures p.0 != p.1
    ensures InOrder(if p.0 == name then Some(value) else None, if p.1 == name then Some(value) else None, p, parse)
            <==> parse(value).Some? && WithinDefault(name, parse(value).value)
  {
    PairNames(p);
    PairBound(p, name);
    hide WithinDefault, Default, PAIRS;
  }

  lemma PairBound(p: (string, string), name: string)
    requires p in PAIRS && (name == p.0 || name == p.1) && p.0 != p.1
    ensures forall x: real :: WithinDefault(name, x) <==> if name == p.0 then x <= Default(p.1) else Default(p.0) <= x
  {
    PairNames(p);
  }

  /** After an accepted batch that sets one of a pair, both numbers stored are numbers, the low one at most the
      high one. */
  lemma SavedPairIsOrdered(table: Table, items: seq<Item>, author: string, clock: nat -> nat, valid: Item -> bool,
                           parse: string -> Option<real>, low: string, high: string, l: string, h: string)
    requires (low, high) in PAIRS && Acceptable(table, items, author, clock, valid, parse)
    requires exists k | 0 <= k < |items| :: items[k].key == Key("c2", low) || items[k].key == Key("c2", high)
    requires var after := Upserted(table, items, author, clock);
             && Key("c2", low) in after && after[Key("c2", low)].value == l != ""
             && Key("c2", high) in after && after[Key("c2", high)].value == h != ""
    ensures parse(l).Some? && parse(h).Some? && parse(l).value <= parse(h).value
  {
    hide PAIRS, Upserted, Default;
    var i :| 0 <= i < |PAIRS| && PAIRS[i] == (low, high);
    assert Touches(items, low) || Touches(items, high);
  }
}
