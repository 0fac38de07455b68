/** The list validator of a bulk request: it finds duplicate keys and CNAME conflicts by collapsing an index of row
    positions, and decides per row whether it is a partial update. */
module BulkValidation {
  import opened Dns
  import opened Records
  import opened BulkUpdate
  import opened Strings

  /** What `item.get(...)` returns for a field that should be a string: nothing or null, a string, something else. */
  datatype Field = Missing | Text(s: string) | NotText

  /** What `item.get("records")` returns. */
  datatype RecordsField = NoRecords | RecordList(l: seq<string>) | NotAList

  datatype Item = NotADictionary | Dictionary(subname: Field, rrtype: Field, ttl: Option<nat>, records: RecordsField)

  /** A row's key; a missing subname or type is a key component of its own. */
  datatype ItemKey = ItemKey(subname: Option<string>, rrtype: Option<string>)

  predicate WellTyped(item: Item) {
    item.Dictionary? && !item.subname.NotText? && !item.rrtype.NotText?
  }

  function TextOf(f: Field): Option<string> {
    if f.Text? then Some(f.s) else None
  }

  function KeyOf(item: Item): ItemKey
    requires WellTyped(item)
  {
    ItemKey(TextOf(item.subname), TextOf(item.rrtype))
  }

  predicate Empty(item: Item) {
    item.Dictionary? && item.records == RecordList([])
  }

  predicate Known(keys: set<Key>, ik: ItemKey) {
    ik.subname.Some? && ik.rrtype.Some? && Key(ik.rrtype.value, ik.subname.value) in keys
  }

  /** Row positions; the database counts as position -1. */
  const DATABASE: int := -1

  // ---------------------------------------------------------------------------------------------------------------
  // What the index and the collapsed index mean
  // ---------------------------------------------------------------------------------------------------------------

  predicate At(data: seq<Item>, ik: ItemKey, p: int) {
    0 <= p < |data| && WellTyped(data[p]) && KeyOf(data[p]) == ik
  }

  /** Where the key occurs: in which of the first `n` rows, and in the database. */
  function Positions(data: seq<Item>, n: nat, keys: set<Key>, ik: ItemKey): set<int> {
    set p: int | DATABASE <= p < n && (if p == DATABASE then Known(keys, ik) else At(data, ik, p))
  }

  /** One of the first `m` rows empties the key. */
  predicate Emptied(data: seq<Item>, m: nat, ik: ItemKey) {
    exists j: nat :: j < m && At(data, ik, j) && Empty(data[j])
  }

  /** Where the key still occurs after the deletions requested by the first `m` rows. */
  function Live(data: seq<Item>, m: nat, keys: set<Key>, ik: ItemKey): set<int> {
    set p | p in Positions(data, |data|, keys, ik)
            && !(if p == DATABASE then Emptied(data, m, ik) else p < m && Empty(data[p]))
  }

  /** CNAME and any other type exclude each other. */
  predicate Excludes(t: Option<string>, t': Option<string>) {
    (t == Some("CNAME")) != (t' == Some("CNAME"))
  }

  type Indices = map<Option<string>, map<Option<string>, set<int>>>

  function Lookup(indices: Indices, ik: ItemKey): set<int> {
    if ik.subname in indices && ik.rrtype in indices[ik.subname] then indices[ik.subname][ik.rrtype] else {}
  }

  predicate Seen(data: seq<Item>, n: nat, s: Option<string>) {
    exists j: nat :: j < n && j < |data| && WellTyped(data[j]) && KeyOf(data[j]).subname == s
  }

  /** `indices` covers the subnames of the first `n` rows and records the positions of the keys there. */
  ghost predicate Indexed(indices: Indices, data: seq<Item>, n: nat, keys: set<Key>) {
    && (forall s :: s in indices <==> Seen(data, n, s))
    && (forall ik: ItemKey :: ik.subname in indices ==> Lookup(indices, ik) == Positions(data, n, keys, ik))
  }

  ghost predicate Collapsed(collapsed: Indices, data: seq<Item>, m: nat, keys: set<Key>) {
    && (forall s :: s in collapsed <==> Seen(data, |data|, s))
    && (forall ik: ItemKey :: ik.subname in collapsed ==> Lookup(collapsed, ik) == Live(data, m, keys, ik))
  }

  /** The types the database has at a subname, each with the database as its only position. */
  function DatabaseTypes(keys: set<Key>, s: Option<string>): map<Option<string>, set<int>> {
    map t | t in (set k | k in keys :: Some(k.rrtype)) && Known(keys, ItemKey(s, t)) :: {DATABASE}
  }

  lemma PositionsStep(data: seq<Item>, n: nat, keys: set<Key>, ik: ItemKey)
    requires n < |data|
    ensures Positions(data, n + 1, keys, ik) == Positions(data, n, keys, ik) + if At(data, ik, n) then {n} else {}
  {
  }

  lemma FreshSubname(data: seq<Item>, n: nat, keys: set<Key>, s: Option<string>, t: Option<string>)
    requires n <= |data| && !Seen(data, n, s)
    ensures Positions(data, n, keys, ItemKey(s, t))
         == if t in DatabaseTypes(keys, s) then DatabaseTypes(keys, s)[t] else {}
  {
    if Known(keys, ItemKey(s, t)) {
      assert Key(t.value, s.value) in keys;
    }
    forall p | 0 <= p < n ensures !At(data, ItemKey(s, t), p) {
    }
  }

  /** The index with one more row. */
  function AddRow(indices: Indices, keys: set<Key>, item: Item, i: int): Indices {
    if !WellTyped(item) then indices
    else
      var ItemKey(s, t) := KeyOf(item);
      var types := if s in indices then indices[s] else DatabaseTypes(keys, s);
      indices[s := types[t := (if t in types then types[t] else {}) + {i}]]
  }

  lemma AddRowIndexes(indices: Indices, data: seq<Item>, n: nat, keys: set<Key>)
    requires n < |data| && Indexed(indices, data, n, keys)
    ensures Indexed(AddRow(indices, keys, data[n], n), data, n + 1, keys)
  {
    var after := AddRow(indices, keys, data[n], n);
    forall s ensures s in after <==> Seen(data, n + 1, s) {
      assert Seen(data, n, s) ==> Seen(data, n + 1, s);
    }
    forall ik: ItemKey | ik.subname in after ensures Lookup(after, ik) == Positions(data, n + 1, keys, ik) {
      hide Positions, Known;
      PositionsStep(data, n, keys, ik);
      if ik.subname !in indices {
        FreshSubname(data, n, keys, ik.subname, ik.rrtype);
      }
    }
  }

  method BuildIndices(data: seq<Item>, keys: set<Key>) returns (indices: Indices)
    ensures Indexed(indices, data, |data|, keys)
  {
    indices := map[];
    assert Indexed(indices, data, 0, keys);
    hide Indexed;
    for i := 0 to |data|
      invariant Indexed(indices, data, i, keys)
    {
      AddRowIndexes(indices, data, i, keys);
      if WellTyped(data[i]) {
        var ItemKey(s, t) := KeyOf(data[i]);
        var types := if s in indices then indices[s] else DatabaseTypes(keys, s);
        var here := if t in types then types[t] else {};
        indices := indices[s := types[t := here + {i}]];
      }
    }
  }

  lemma LiveStep(data: seq<Item>, m: nat, keys: set<Key>, ik: ItemKey)
    requires m < |data|
    ensures Live(data, m + 1, keys, ik)
         == Live(data, m, keys, ik) - if At(data, ik, m) && Empty(data[m]) then {m, DATABASE} else {}
  {
    assert Emptied(data, m + 1, ik) <==> Emptied(data, m, ik) || (At(data, ik, m) && Empty(data[m]));
  }

  lemma LiveStart(data: seq<Item>, keys: set<Key>, ik: ItemKey)
    ensures Live(data, 0, keys, ik) == Positions(data, |data|, keys, ik)
  {
  }

  lemma CollapseRow(collapsed: Indices, data: seq<Item>, m: nat, keys: set<Key>)
    requires m < |data| && Collapsed(collapsed, data, m, keys)
    ensures WellTyped(data[m]) && Empty(data[m]) ==>
              var ItemKey(s, t) := KeyOf(data[m]);
              && s in collapsed
              && t in collapsed[s]
              && Collapsed(collapsed[s := collapsed[s][t := collapsed[s][t] - {m, DATABASE}]], data, m + 1, keys)
    ensures !(WellTyped(data[m]) && Empty(data[m])) ==> Collapsed(collapsed, data, m + 1, keys)
  {
    forall ik ensures Live(data, m + 1, keys, ik)
                   == Live(data, m, keys, ik) - if At(data, ik, m) && Empty(data[m]) then {m, DATABASE} else {} {
      LiveStep(data, m, keys, ik);
    }
    if WellTyped(data[m]) && Empty(data[m]) {
      var ik := KeyOf(data[m]);
      assert Seen(data, |data|, ik.subname);
      assert m in Live(data, m, keys, ik);
      assert Lookup(collapsed, ik) == Live(data, m, keys, ik);
    }
  }

  /** Each row that deletes its key takes itself and the database out of the key's positions. */
  method Collapse(data: seq<Item>, keys: set<Key>, indices: Indices) returns (collapsed: Indices)
    requires Indexed(indices, data, |data|, keys)
    ensures Collapsed(collapsed, data, |data|, keys)
  {
    collapsed := indices;
    forall ik { LiveStart(data, keys, ik); }
    for i := 0 to |data|
      invariant Collapsed(collapsed, data, i, keys)
    {
      CollapseRow(collapsed, data, i, keys);
      if WellTyped(data[i]) && Empty(data[i]) {
        var ItemKey(s, t) := KeyOf(data[i]);
        collapsed := collapsed[s := collapsed[s][t := collapsed[s][t] - {i, DATABASE}]];
      }
    }
  }

  // ---------------------------------------------------------------------------------------------------------------
  // The verdict on each row
  // ---------------------------------------------------------------------------------------------------------------

  datatype RowError =
    | WrongType(dictionary: bool, subname: bool, rrtype: bool)
    | SameKey(positions: set<int>)
    | ConflictingTypes(types: map<Option<string>, set<int>>)
    | Invalid(detail: string)

  /** The child serializer's validation of one row: whether it is a partial update, and of which RRset. */
  type Child = (Item, bool, Option<RRset>) -> Result<Row, string>

  /** The other rows with the same key. */
  function OtherRows(data: seq<Item>, keys: set<Key>, i: nat): set<int>
    requires i < |data| && WellTyped(data[i])
  {
    Positions(data, |data|, keys, KeyOf(data[i])) - {DATABASE, i}
  }

  function AllTypes(data: seq<Item>, keys: set<Key>): set<Option<string>> {
    (set k | k in keys :: Some(k.rrtype)) + (set item | item in data && WellTyped(item) :: KeyOf(item).rrtype)
  }

  /** The types that would exclude this key once the batch's deletions are done, with their positions. */
  function ConflictPositions(data: seq<Item>, keys: set<Key>, ik: ItemKey): map<Option<string>, set<int>> {
    map t | t in AllTypes(data, keys) && Excludes(t, ik.rrtype) && Live(data, |data|, keys, ItemKey(ik.subname, t)) != {}
      :: Live(data, |data|, keys, ItemKey(ik.subname, t))
  }

  function Instance(known: map<Key, RRset>, ik: ItemKey): Option<RRset> {
    if Known(known.Keys, ik) then Some(known[Key(ik.rrtype.value, ik.subname.value)]) else None
  }

  /** What the validator decides about row `i`.  `keys` are the domain's RRsets in the database; `known` are those given
      to the serializer, which is none of them on creation requests. */
  function Verdict(data: seq<Item>, keys: set<Key>, known: map<Key, RRset>, partial: bool, child: Child, i: nat)
    : Result<Row, RowError>
    requires i < |data|
  {
    var item := data[i];
    if !WellTyped(item) then
      Err(WrongType(item.Dictionary?, item.Dictionary? ==> !item.subname.NotText?, item.Dictionary? ==> !item.rrtype.NotText?))
    else if OtherRows(data, keys, i) != {} then Err(SameKey(OtherRows(data, keys, i)))
    else if !Empty(item) && ConflictPositions(data, keys, KeyOf(item)) != map[] then
      Err(ConflictingTypes(ConflictPositions(data, keys, KeyOf(item))))
    else
      var unknown := !Known(known.Keys, KeyOf(item));
      match child(item, partial && !(unknown && !Empty(item)), Instance(known, KeyOf(item)))
      case Ok(row) => Ok(row)
      case Err(detail) => Err(Invalid(detail))
  }

  lemma LiveTypes(data: seq<Item>, keys: set<Key>, ik: ItemKey)
    requires Live(data, |data|, keys, ik) != {}
    ensures ik.rrtype in AllTypes(data, keys)
  {
    var p :| p in Live(data, |data|, keys, ik);
    assert p in Positions(data, |data|, keys, ik);
    if p == DATABASE {
      assert Known(keys, ik);
      var k := Key(ik.rrtype.value, ik.subname.value);
      assert k in keys && Some(k.rrtype) == ik.rrtype;
    } else {
      assert data[p] in data;
    }
  }

  lemma CollapsedConflicts(data: seq<Item>, keys: set<Key>, collapsed: Indices, ik: ItemKey)
    requires Collapsed(collapsed, data, |data|, keys) && ik.subname in collapsed
    ensures (map t | t in collapsed[ik.subname] && Excludes(t, ik.rrtype) && collapsed[ik.subname][t] != {}
                    :: collapsed[ik.subname][t])
         == ConflictPositions(data, keys, ik)
  {
    forall t
      ensures Lookup(collapsed, ItemKey(ik.subname, t)) == Live(data, |data|, keys, ItemKey(ik.subname, t))
      ensures Live(data, |data|, keys, ItemKey(ik.subname, t)) != {} ==> t in AllTypes(data, keys)
    {
      if Live(data, |data|, keys, ItemKey(ik.subname, t)) != {} {
        LiveTypes(data, keys, ItemKey(ik.subname, t));
      }
    }
  }

  lemma RowIsIndexed(data: seq<Item>, keys: set<Key>, indices: Indices, collapsed: Indices, i: nat)
    requires i < |data| && WellTyped(data[i])
    requires Indexed(indices, data, |data|, keys) && Collapsed(collapsed, data, |data|, keys)
    ensures var ik := KeyOf(data[i]);
            && ik.subname in indices && ik.rrtype in indices[ik.subname] && ik.subname in collapsed
            && i in indices[ik.subname][ik.rrtype]
            && indices[ik.subname][ik.rrtype] == Positions(data, |data|, keys, ik)
  {
    var ik := KeyOf(data[i]);
    assert Seen(data, |data|, ik.subname);
    assert i in Positions(data, |data|, keys, ik);
    assert Lookup(indices, ik) == Positions(data, |data|, keys, ik);
  }

  /** The check of one row against the two indices. */
  method CheckRow(data: seq<Item>, keys: set<Key>, known: map<Key, RRset>, partial: bool, child: Child,
                  indices: Indices, collapsed: Indices, i: nat) returns (r: Result<Row, RowError>)
    requires i < |data| && WellTyped(data[i])
    requires Indexed(indices, data, |data|, keys) && Collapsed(collapsed, data, |data|, keys)
    ensures r == Verdict(data, keys, known, partial, child, i)
  {
    hide Indexed, Collapsed, Positions, Live, ConflictPositions, Known;
    var ik := KeyOf(data[i]);
    RowIsIndexed(data, keys, indices, collapsed, i);
    var others := indices[ik.subname][ik.rrtype] - {DATABASE};
    assert others - {i} == OtherRows(data, keys, i);
    if |others| > 1 {
      assert others - {i} != {} by {
        assert others == {i} + (others - {i});
      }
      return Err(SameKey(others - {i}));
    }
    assert others - {i} == {} by {
      assert |others - {i}| == 0;
    }
    if !Empty(data[i]) {
      var conflicting := map t | t in collapsed[ik.subname] && Excludes(t, ik.rrtype) && collapsed[ik.subname][t] != {}
                          :: collapsed[ik.subname][t];
      CollapsedConflicts(data, keys, collapsed, ik);
      if conflicting != map[] {
        return Err(ConflictingTypes(conflicting));
      }
    }
    var unknown := !Known(known.Keys, ik);
    match child(data[i], partial && !(unknown && !Empty(data[i])), Instance(known, ik))
    case Ok(row) => return Ok(row);
    case Err(detail) => return Err(Invalid(detail));
  }

  lemma VerdictOnMistyped(data: seq<Item>, keys: set<Key>, known: map<Key, RRset>, partial: bool, child: Child, i: nat)
    requires i < |data| && !WellTyped(data[i])
    ensures Verdict(data, keys, known, partial, child, i)
         == Err(WrongType(data[i].Dictionary?, data[i].Dictionary? ==> !data[i].subname.NotText?,
                          data[i].Dictionary? ==> !data[i].rrtype.NotText?))
  {
  }

  /** The list validator: all rows if every verdict is good, otherwise the errors by row. */
  method ToInternalValue(data: seq<Item>, keys: set<Key>, known: map<Key, RRset>, partial: bool, child: Child)
    returns (r: Result<seq<Row>, seq<Option<RowError>>>)
    ensures r.Ok? <==> forall i :: 0 <= i < |data| ==> Verdict(data, keys, known, partial, child, i).Ok?
    ensures r.Ok? ==> |r.value| == |data|
    ensures r.Ok? ==> forall i :: 0 <= i < |data| ==> Verdict(data, keys, known, partial, child, i) == Ok(r.value[i])
    ensures r.Err? ==> |r.error| == |data|
    ensures r.Err? ==> forall i :: 0 <= i < |data| ==>
              if r.error[i].Some? then Verdict(data, keys, known, partial, child, i) == Err(r.error[i].value)
              else Verdict(data, keys, known, partial, child, i).Ok?
  {
    hide Verdict, Indexed, Collapsed;
    var indices := BuildIndices(data, keys);
    var collapsed := Collapse(data, keys, indices);
    var errors: seq<Option<RowError>> := [];
    var rows: seq<Row> := [];
    var failed := false;
    for i := 0 to |data|
      invariant |errors| == i && |rows| <= i
      invariant failed <==> exists j :: 0 <= j < i && Verdict(data, keys, known, partial, child, j).Err?
      invariant !failed ==> |rows| == i
      invariant forall j :: 0 <= j < i ==>
                  if errors[j].Some? then Verdict(data, keys, known, partial, child, j) == Err(errors[j].value)
                  else Verdict(data, keys, known, partial, child, j).Ok?
      invariant !failed ==> forall j :: 0 <= j < i ==> Verdict(data, keys, known, partial, child, j) == Ok(rows[j])
    {
      var item := data[i];
      var r;
      if !WellTyped(item) {
        VerdictOnMistyped(data, keys, known, partial, child, i);
        r := Err(WrongType(item.Dictionary?, item.Dictionary? ==> !item.subname.NotText?,
                           item.Dictionary? ==> !item.rrtype.NotText?));
      } else {
        r := CheckRow(data, keys, known, partial, child, indices, collapsed, i);
      }
      match r
      case Ok(row) =>
        rows := rows + [row];
        errors := errors + [None];
      case Err(e) =>
        failed := true;
        errors := errors + [Some(e)];
    }
    return if failed then Err(errors) else Ok(rows);
  }

  // ---------------------------------------------------------------------------------------------------------------
  // CNAME errors and the RRsets that a batch leaves
  // ---------------------------------------------------------------------------------------------------------------

  predicate FullyKeyed(item: Item) {
    WellTyped(item) && item.subname.Text? && item.rrtype.Text?
  }

  function ItemKeyOf(k: Key): ItemKey {
    ItemKey(Some(k.subname), Some(k.rrtype))
  }

  function KeyIn(item: Item): Key
    requires FullyKeyed(item)
  {
    Key(item.rrtype.s, item.subname.s)
  }

  /** Every row names an RRset, and no two rows the same one. */
  ghost predicate ProperBatch(data: seq<Item>) {
    && (forall i :: 0 <= i < |data| ==> FullyKeyed(data[i]))
    && (forall i, j :: 0 <= i < j < |data| ==> KeyIn(data[i]) != KeyIn(data[j]))
  }

  ghost predicate Mentions(data: seq<Item>, k: Key) {
    exists i :: 0 <= i < |data| && FullyKeyed(data[i]) && KeyIn(data[i]) == k
  }

  ghost predicate Empties(data: seq<Item>, k: Key) {
    exists i :: 0 <= i < |data| && FullyKeyed(data[i]) && KeyIn(data[i]) == k && Empty(data[i])
  }

  /** The RRsets left when the batch has been carried out: those it names and does not empty, and those it does not name. */
  ghost predicate Remains(data: seq<Item>, keys: set<Key>, k: Key) {
    if Mentions(data, k) then !Empties(data, k) else k in keys
  }

  ghost predicate RemainsExclusive(data: seq<Item>, keys: set<Key>) {
    forall k, l :: Remains(data, keys, k) && Remains(data, keys, l) && k.subname == l.subname ==>
      (k.rrtype == "CNAME" <==> l.rrtype == "CNAME")
  }

  lemma LiveIffRemains(data: seq<Item>, keys: set<Key>, k: Key)
    requires ProperBatch(data)
    ensures Live(data, |data|, keys, ItemKeyOf(k)) != {} <==> Remains(data, keys, k)
  {
    var ik, live := ItemKeyOf(k), Live(data, |data|, keys, ItemKeyOf(k));
    if i :| 0 <= i < |data| && KeyIn(data[i]) == k {
      assert At(data, ik, i) && Mentions(data, k);
      assert i in live <==> !Empty(data[i]);
      if Empty(data[i]) {
        assert Emptied(data, |data|, ik) && Empties(data, k);
        forall p | p in Positions(data, |data|, keys, ik) ensures p !in live {
        }
        assert live <= Positions(data, |data|, keys, ik);
      }
    } else {
      assert forall p :: 0 <= p < |data| ==> !At(data, ik, p);
      assert !Emptied(data, |data|, ik) && !Mentions(data, k);
      assert Known(keys, ik) <==> k in keys;
      assert DATABASE in live <==> DATABASE in Positions(data, |data|, keys, ik);
      if p :| p in live {
        assert p in Positions(data, |data|, keys, ik);
      }
    }
  }

  lemma ProperRowsAreAlone(data: seq<Item>, keys: set<Key>, i: nat)
    requires ProperBatch(data) && i < |data|
    ensures OtherRows(data, keys, i) == {}
  {
    forall p | p in Positions(data, |data|, keys, KeyOf(data[i])) && p != DATABASE ensures p == i {
      assert At(data, KeyOf(data[i]), p);
      assert KeyIn(data[p]) == KeyIn(data[i]);
    }
  }

  lemma CnameVerdict(data: seq<Item>, keys: set<Key>, known: map<Key, RRset>, partial: bool, child: Child, i: nat)
    requires i < |data| && WellTyped(data[i]) && OtherRows(data, keys, i) == {}
    ensures var v := Verdict(data, keys, known, partial, child, i);
            v.Err? && v.error.ConflictingTypes? <==> !Empty(data[i]) && ConflictPositions(data, keys, KeyOf(data[i])) != map[]
  {
    hide ConflictPositions, OtherRows;
  }

  /** Some row of a proper batch gets the CNAME error if and only if what the batch would leave, by the keys it is written
      with, violates CNAME exclusivity.  If no key is surrounded by white space, this is what the update leaves. */
  lemma CnameErrorIffExclusivityViolated(data: seq<Item>, keys: set<Key>, known: map<Key, RRset>, partial: bool, child: Child)
    requires ProperBatch(data) && Exclusive(keys)
    ensures var error := exists i :: 0 <= i < |data| && Verdict(data, keys, known, partial, child, i).Err?
                                     && Verdict(data, keys, known, partial, child, i).error.ConflictingTypes?;
            && (error <==> !RemainsExclusive(data, keys))
            && (TidyBatch(data) ==> (error <==> !RemainsExclusive(TrimmedBatch(data), keys)))
  {
    hide ConflictPositions, OtherRows, Verdict;
    TidyUnchanged(data);
    forall i | 0 <= i < |data|
      ensures Verdict(data, keys, known, partial, child, i).Err?
              && Verdict(data, keys, known, partial, child, i).error.ConflictingTypes?
         <==> !Empty(data[i]) && ConflictPositions(data, keys, KeyOf(data[i])) != map[]
    {
      ProperRowsAreAlone(data, keys, i);
      CnameVerdict(data, keys, known, partial, child, i);
    }
    if i :| 0 <= i < |data| && !Empty(data[i]) && ConflictPositions(data, keys, KeyOf(data[i])) != map[] {
      ConflictIsViolation(data, keys, i);
    }
    if !RemainsExclusive(data, keys) {
      ViolatingRow(data, keys);
    }
  }

  /** Of two RRsets in conflict, one is named by the batch. */
  lemma ViolatingRow(data: seq<Item>, keys: set<Key>)
    requires ProperBatch(data) && Exclusive(keys) && !RemainsExclusive(data, keys)
    ensures exists i :: 0 <= i < |data| && !Empty(data[i]) && ConflictPositions(data, keys, KeyOf(data[i])) != map[]
  {
    hide ConflictPositions;
    var k, l :| Remains(data, keys, k) && Remains(data, keys, l) && k.subname == l.subname
                && k.rrtype == "CNAME" && l.rrtype != "CNAME";
    if Mentions(data, k) {
      var i :| 0 <= i < |data| && KeyIn(data[i]) == k;
      ViolationIsConflict(data, keys, i, l);
    } else {
      assert Mentions(data, l);
      var i :| 0 <= i < |data| && KeyIn(data[i]) == l;
      ViolationIsConflict(data, keys, i, k);
    }
  }

  lemma ConflictIsViolation(data: seq<Item>, keys: set<Key>, i: nat)
    requires ProperBatch(data) && i < |data| && !Empty(data[i])
    requires ConflictPositions(data, keys, KeyOf(data[i])) != map[]
    ensures !RemainsExclusive(data, keys)
  {
    var k := KeyIn(data[i]);
    var t :| t in ConflictPositions(data, keys, KeyOf(data[i]));
    var p :| p in Live(data, |data|, keys, ItemKey(Some(k.subname), t));
    assert p in Positions(data, |data|, keys, ItemKey(Some(k.subname), t));
    assert t.Some?;
    LiveIffRemains(data, keys, Key(t.value, k.subname));
    assert Mentions(data, k) && !Empties(data, k);
    assert Remains(data, keys, k);
  }

  lemma ViolationIsConflict(data: seq<Item>, keys: set<Key>, i: nat, l: Key)
    requires ProperBatch(data) && i < |data| && Remains(data, keys, KeyIn(data[i]))
    requires Remains(data, keys, l) && l.subname == KeyIn(data[i]).subname
    requires (l.rrtype == "CNAME") != (KeyIn(data[i]).rrtype == "CNAME")
    ensures !Empty(data[i]) && ConflictPositions(data, keys, KeyOf(data[i])) != map[]
  {
    assert Mentions(data, KeyIn(data[i]));
    LiveIffRemains(data, keys, l);
    LiveTypes(data, keys, ItemKeyOf(l));
    assert Some(l.rrtype) in ConflictPositions(data, keys, KeyOf(data[i]));
  }

  // ---------------------------------------------------------------------------------------------------------------
  // The verdicts, by the fields of the rows
  // ---------------------------------------------------------------------------------------------------------------

  predicate IsMistyped(item: Item) {
    item.NotADictionary? || item.subname == NotText || item.rrtype == NotText
  }

  /** The rows are dictionaries with the same subname and type, or both without. */
  predicate SameFields(a: Item, b: Item) {
    !IsMistyped(a) && !IsMistyped(b) && a.subname == b.subname && a.rrtype == b.rrtype
  }

  /** A row has the wrong type if and only if it is no dictionary or its subname or type is no string. */
  lemma MistypedIff(data: seq<Item>, keys: set<Key>, known: map<Key, RRset>, partial: bool, child: Child, i: nat)
    requires i < |data|
    ensures var v, item := Verdict(data, keys, known, partial, child, i), data[i];
            && (v.Err? && v.error.WrongType? <==> IsMistyped(item))
            && (IsMistyped(item) ==>
                  v.error == WrongType(item != NotADictionary, item.NotADictionary? || item.subname != NotText,
                                       item.NotADictionary? || item.rrtype != NotText))
  {
    hide OtherRows, ConflictPositions;
  }

  lemma OtherRowsAre(data: seq<Item>, keys: set<Key>, i: nat, p: int)
    requires i < |data| && !IsMistyped(data[i])
    ensures p in OtherRows(data, keys, i) <==> 0 <= p < |data| && p != i && SameFields(data[p], data[i])
  {
    assert At(data, KeyOf(data[i]), p) <==> 0 <= p < |data| && SameFields(data[p], data[i]);
  }

  /** A row is a duplicate if and only if another one has the same subname and type; the error names all of those. */
  lemma DuplicateIff(data: seq<Item>, keys: set<Key>, known: map<Key, RRset>, partial: bool, child: Child, i: nat)
    requires i < |data|
    ensures var v := Verdict(data, keys, known, partial, child, i);
            && (v.Err? && v.error.SameKey? <==> exists j :: 0 <= j < |data| && j != i && SameFields(data[j], data[i]))
            && (v.Err? && v.error.SameKey? ==>
                  forall p :: p in v.error.positions <==> 0 <= p < |data| && p != i && SameFields(data[p], data[i]))
  {
    hide ConflictPositions;
    if !IsMistyped(data[i]) {
      forall p ensures p in OtherRows(data, keys, i) <==> 0 <= p < |data| && p != i && SameFields(data[p], data[i]) {
        OtherRowsAre(data, keys, i, p);
      }
      if OtherRows(data, keys, i) != {} {
        var p :| p in OtherRows(data, keys, i);
        assert SameFields(data[p], data[i]);
      }
      if j :| 0 <= j < |data| && j != i && SameFields(data[j], data[i]) {
        assert j in OtherRows(data, keys, i);
      }
    }
  }

  /** Row `j` leaves an RRset at the subname of row `i`, and one of them is a CNAME. */
  predicate RowClashes(data: seq<Item>, i: nat, j: int)
    requires i < |data| && !IsMistyped(data[i])
  {
    && 0 <= j < |data| && !IsMistyped(data[j]) && data[j].subname == data[i].subname && data[j].records != RecordList([])
    && (data[j].rrtype == Text("CNAME") <==> data[i].rrtype != Text("CNAME"))
  }

  /** The database has an RRset at the subname of row `i`, one of them is a CNAME, and no row empties it. */
  predicate RRsetClashes(data: seq<Item>, i: nat, k: Key)
    requires i < |data| && !IsMistyped(data[i])
  {
    && data[i].subname == Text(k.subname) && (k.rrtype == "CNAME" <==> data[i].rrtype != Text("CNAME"))
    && !exists j :: 0 <= j < |data| && data[j].Dictionary? && data[j].subname == Text(k.subname)
                    && data[j].rrtype == Text(k.rrtype) && data[j].records == RecordList([])
  }

  /** A row gets the CNAME error if and only if it is no duplicate, does not empty its key, and another row or an RRset in the
      database that no row empties is in conflict with it. */
  lemma ConflictIff(data: seq<Item>, keys: set<Key>, known: map<Key, RRset>, partial: bool, child: Child, i: nat)
    requires i < |data|
    ensures var v := Verdict(data, keys, known, partial, child, i);
            v.Err? && v.error.ConflictingTypes?
            <==> (&& !IsMistyped(data[i]) && data[i].records != RecordList([])
                  && (forall j :: 0 <= j < |data| && j != i ==> !SameFields(data[j], data[i]))
                  && ((exists j :: RowClashes(data, i, j)) || (exists k :: k in keys && RRsetClashes(data, i, k))))
  {
    hide ConflictPositions, RowClashes, RRsetClashes, OtherRows;
    MistypedIff(data, keys, known, partial, child, i);
    DuplicateIff(data, keys, known, partial, child, i);
    if !IsMistyped(data[i]) {
      forall p ensures p in OtherRows(data, keys, i) <==> 0 <= p < |data| && p != i && SameFields(data[p], data[i]) {
        OtherRowsAre(data, keys, i, p);
      }
      ConflictsIff(data, keys, i);
    }
  }

  lemma ConflictsIff(data: seq<Item>, keys: set<Key>, i: nat)
    requires i < |data| && !IsMistyped(data[i])
    ensures ConflictPositions(data, keys, KeyOf(data[i])) != map[]
       <==> ((exists j :: RowClashes(data, i, j)) || (exists k :: k in keys && RRsetClashes(data, i, k)))
  {
    var ik, m := KeyOf(data[i]), ConflictPositions(data, keys, KeyOf(data[i]));
    if t :| t in m {
      var p :| p in Live(data, |data|, keys, ItemKey(ik.subname, t));
      LiveClashes(data, keys, i, t, p);
    }
    if j :| RowClashes(data, i, j) {
      var t := KeyOf(data[j]).rrtype;
      LiveClashes(data, keys, i, t, j);
      LiveTypes(data, keys, ItemKey(ik.subname, t));
      assert t in m;
    }
    if k :| k in keys && RRsetClashes(data, i, k) {
      LiveClashes(data, keys, i, Some(k.rrtype), DATABASE);
      LiveTypes(data, keys, ItemKey(ik.subname, Some(k.rrtype)));
      assert Some(k.rrtype) in m;
    }
  }

  lemma LiveClashes(data: seq<Item>, keys: set<Key>, i: nat, t: Option<string>, p: int)
    requires i < |data| && !IsMistyped(data[i])
    ensures p in Live(data, |data|, keys, ItemKey(KeyOf(data[i]).subname, t)) && Excludes(t, KeyOf(data[i]).rrtype)
       <==> if p == DATABASE
            then && t.Some? && data[i].subname.Text? && Key(t.value, data[i].subname.s) in keys
                 && RRsetClashes(data, i, Key(t.value, data[i].subname.s))
            else RowClashes(data, i, p) && KeyOf(data[p]).rrtype == t
  {
    var ik := ItemKey(KeyOf(data[i]).subname, t);
    assert p in Positions(data, |data|, keys, ik) <==> if p == DATABASE then Known(keys, ik) else At(data, ik, p);
    assert Emptied(data, |data|, ik) <==> exists j: nat :: At(data, ik, j) && Empty(data[j]);
  }

  /** Without an error of the list validator the child serializer decides: on the instance if the key is known, and on a
      partial update if that was asked for and the row does not create an RRset. */
  lemma OtherwiseChildDecides(data: seq<Item>, keys: set<Key>, known: map<Key, RRset>, partial: bool, child: Child, i: nat)
    requires i < |data| && !IsMistyped(data[i])
    ensures var v, item := Verdict(data, keys, known, partial, child, i), data[i];
            var isKnown := item.subname.Text? && item.rrtype.Text? && Key(item.rrtype.s, item.subname.s) in known;
            var decision := child(item, partial && (isKnown || item.records == RecordList([])),
                                  if isKnown then Some(known[Key(item.rrtype.s, item.subname.s)]) else None);
            v.Ok? || v.error.Invalid?
            ==> v == match decision case Ok(row) => Ok(row) case Err(detail) => Err(Invalid(detail))
  {
    hide OtherRows, ConflictPositions;
  }

  /** In a proper batch that leaves exclusive keys, it decides on every row. */
  lemma ChildDecides(data: seq<Item>, keys: set<Key>, known: map<Key, RRset>, partial: bool, child: Child, i: nat)
    requires ProperBatch(data) && i < |data| && RemainsExclusive(data, keys)
    ensures var item := data[i];
            var k := Key(item.rrtype.s, item.subname.s);
            Verdict(data, keys, known, partial, child, i)
            == match child(item, partial && (k in known || item.records == RecordList([])), if k in known then Some(known[k]) else None)
               case Ok(row) => Ok(row)
               case Err(detail) => Err(Invalid(detail))
  {
    hide RemainsExclusive, OtherRows, ConflictPositions;
    ProperRowsAreAlone(data, keys, i);
    if !Empty(data[i]) && ConflictPositions(data, keys, KeyOf(data[i])) != map[] {
      ConflictIsViolation(data, keys, i);
    }
  }

  // ---------------------------------------------------------------------------------------------------------------
  // The validator and the update agree, up to white space around the keys
  // ---------------------------------------------------------------------------------------------------------------

  function TrimmedField(f: Field): Field {
    if f.Text? then Text(Trimmed(f.s)) else f
  }

  /** The child serializer trims the subname and the type, which the list validator does not. */
  function TrimmedItem(item: Item): Item {
    if item.Dictionary? then item.(subname := TrimmedField(item.subname), rrtype := TrimmedField(item.rrtype)) else item
  }

  function TrimmedBatch(data: seq<Item>): seq<Item> {
    seq(|data|, i requires 0 <= i < |data| => TrimmedItem(data[i]))
  }

  predicate TidyField(f: Field) {
    f.Text? ==> IsTidy(f.s)
  }

  /** No subname or type in the batch has white space around it. */
  predicate TidyBatch(data: seq<Item>) {
    forall i :: 0 <= i < |data| && data[i].Dictionary? ==> TidyField(data[i].subname) && TidyField(data[i].rrtype)
  }

  /** What the database stores is validated to have none. */
  ghost predicate TidyKeys(keys: set<Key>) {
    forall k :: k in keys ==> IsTidy(k.subname) && IsTidy(k.rrtype)
  }

  lemma TidyUnchanged(data: seq<Item>)
    ensures TidyBatch(data) <==> TrimmedBatch(data) == data
  {
    if TidyBatch(data) {
      forall i | 0 <= i < |data| ensures TrimmedItem(data[i]) == data[i] {
      }
    }
    if TrimmedBatch(data) == data {
      forall i | 0 <= i < |data| && data[i].Dictionary? ensures TidyField(data[i].subname) && TidyField(data[i].rrtype) {
        assert TrimmedBatch(data)[i] == TrimmedItem(data[i]);
      }
    }
  }

  /** What is known of the child serializer over a database with these keys: it takes the trimmed key of an item that names
      an RRset; empty rows and only those stay empty; a row that is not a partial update comes out with a TTL and records;
      and without an instance it refuses a key that is in the database. */
  ghost predicate Faithful(child: Child, keys: set<Key>) {
    forall item, partial, instance :: child(item, partial, instance).Ok? ==>
      var row := child(item, partial, instance).value;
      && FullyKeyed(item) && row.key == KeyIn(TrimmedItem(item))
      && (IsEmpty(row) <==> Empty(item))
      && (!partial ==> row.ttl.Some? && row.records.Some?)
      && (instance.None? ==> row.key !in keys)
  }

  /** The rows carry the keys of the batch and empty what it empties. */
  ghost predicate RowsOf(rows: seq<Row>, data: seq<Item>) {
    && |rows| == |data|
    && (forall i :: 0 <= i < |data| ==> FullyKeyed(data[i]) && rows[i].key == KeyIn(data[i]))
    && (forall i :: 0 <= i < |data| ==> (IsEmpty(rows[i]) <==> Empty(data[i])))
  }

  lemma IndexKeys(data: seq<Item>, rows: seq<Row>, k: Key)
    requires RowsOf(rows, data)
    ensures k in Index(rows) <==> Mentions(data, k)
    ensures k in Index(rows) ==> (IsEmpty(Index(rows)[k]) <==> Empties(data, k))
  {
    IndexMembers(rows);
    if k in Index(rows) {
      var i :| 0 <= i < |rows| && rows[i] == Index(rows)[k];
      assert KeyIn(data[i]) == k;
    }
    if i :| 0 <= i < |data| && KeyIn(data[i]) == k {
      assert rows[i] in rows;
    }
    if i :| 0 <= i < |data| && KeyIn(data[i]) == k && Empty(data[i]) {
      assert rows[i] in rows;
    }
  }

  lemma MergedRemains(data: seq<Item>, z: Zone, canon: Canonicalizer, rows: seq<Row>)
    requires RowsOf(rows, data)
    ensures forall k :: k in Merged(canon, z, Index(rows)) <==> Remains(data, z.Keys, k)
    ensures Exclusive(Merged(canon, z, Index(rows)).Keys) <==> RemainsExclusive(data, z.Keys)
  {
    hide Index, RowsOf, Mentions, Empties;
    forall k ensures k in Merged(canon, z, Index(rows)) <==> Remains(data, z.Keys, k) {
      IndexKeys(data, rows, k);
    }
    hide Merged, Remains;
  }

  lemma DistinctIffProper(data: seq<Item>, rows: seq<Row>)
    requires RowsOf(rows, data)
    ensures DistinctKeys(rows) <==> ProperBatch(data)
  {
    if DistinctKeys(rows) {
      forall i, j | 0 <= i < j < |data| ensures KeyIn(data[i]) != KeyIn(data[j]) {
        assert rows[i].key != rows[j].key;
      }
    }
    if ProperBatch(data) {
      forall i, j | 0 <= i < j < |rows| ensures rows[i].key != rows[j].key {
        assert KeyIn(data[i]) != KeyIn(data[j]);
      }
    }
  }

  /** A row that creates an RRset is complete: the database has the key as written if and only if it has the trimmed one. */
  lemma CompleteRow(data: seq<Item>, z: Zone, known: map<Key, RRset>, partial: bool, child: Child, i: nat, row: Row)
    requires Faithful(child, z.Keys) && TidyKeys(z.Keys) && i < |data| && (known == z || known == map[])
    requires Verdict(data, z.Keys, known, partial, child, i) == Ok(row)
    ensures row.key == KeyIn(TrimmedItem(data[i])) && FullyKeyed(data[i]) && (IsEmpty(row) <==> Empty(data[i]))
    ensures row.key !in z && !IsEmpty(row) ==> row.records.Some? && row.ttl.Some?
    ensures OtherRows(data, z.Keys, i) == {}
  {
    hide OtherRows, ConflictPositions;
    var item := data[i];
    if Known(known.Keys, KeyOf(item)) {
      assert IsTidy(item.subname.s) && IsTidy(item.rrtype.s);
    }
  }

  lemma GoodVerdicts(data: seq<Item>, z: Zone, known: map<Key, RRset>, partial: bool, child: Child, rows: seq<Row>)
    requires Faithful(child, z.Keys) && TidyKeys(z.Keys) && (known == z || known == map[]) && |rows| == |data|
    requires forall i :: 0 <= i < |data| ==> Verdict(data, z.Keys, known, partial, child, i) == Ok(rows[i])
    ensures ProperBatch(data) && RowsOf(rows, TrimmedBatch(data))
  {
    hide Verdict, Faithful, TidyKeys, OtherRows, IsEmpty, Trimmed;
    forall i | 0 <= i < |data|
      ensures FullyKeyed(data[i]) && rows[i].key == KeyIn(TrimmedItem(data[i])) && (IsEmpty(rows[i]) <==> Empty(data[i]))
      ensures OtherRows(data, z.Keys, i) == {}
    {
      CompleteRow(data, z, known, partial, child, i, rows[i]);
    }
    forall i, j | 0 <= i < j < |data| ensures KeyIn(data[i]) != KeyIn(data[j]) {
      AloneDiffers(data, z.Keys, i, j);
    }
  }

  lemma AloneDiffers(data: seq<Item>, keys: set<Key>, i: nat, j: nat)
    requires i < |data| && j < |data| && i != j && FullyKeyed(data[i]) && FullyKeyed(data[j])
    requires OtherRows(data, keys, i) == {}
    ensures KeyIn(data[i]) != KeyIn(data[j])
  {
    assert j in OtherRows(data, keys, i) <==> KeyIn(data[i]) == KeyIn(data[j]);
  }

  /** The records of every row that counts make up an RRset of its type. */
  ghost predicate AcceptableRecords(canon: Canonicalizer, index: map<Key, Row>) {
    forall k :: k in index && index[k].records.Some? && !IsEmpty(index[k]) ==> Acceptable(canon, k, index[k].records.value)
  }

  lemma AcceptedIff(canon: Canonicalizer, z: Zone, index: map<Key, Row>)
    requires WellKeyed(index)
    requires forall k :: k in index && k !in z && !IsEmpty(index[k]) ==> index[k].records.Some? && index[k].ttl.Some?
    ensures Accepted(canon, z, index) <==> AcceptableRecords(canon, index) && Exclusive(Merged(canon, z, index).Keys)
  {
    hide Acceptable, Exclusive, Merged;
    forall k | k in index
      ensures RowOk(canon, z, index[k])
         <==> (index[k].records.Some? && !IsEmpty(index[k]) ==> Acceptable(canon, k, index[k].records.value))
    {
    }
  }

  /** When all verdicts are good, the rows have different keys if and only if the trimmed batch is proper, and the update
      leaves an exclusive zone if and only if the trimmed batch does.  All that can otherwise stop the update are records
      that do not make up an RRset of their type. */
  lemma ValidatedBatchIff(data: seq<Item>, z: Zone, known: map<Key, RRset>, partial: bool, child: Child,
                          canon: Canonicalizer, rows: seq<Row>)
    requires Faithful(child, z.Keys) && TidyKeys(z.Keys)
    requires known == z || known == map[]
    requires |rows| == |data|
    requires forall i :: 0 <= i < |data| ==> Verdict(data, z.Keys, known, partial, child, i) == Ok(rows[i])
    ensures DistinctKeys(rows) <==> ProperBatch(TrimmedBatch(data))
    ensures Exclusive(Merged(canon, z, Index(rows)).Keys) <==> RemainsExclusive(TrimmedBatch(data), z.Keys)
    ensures Accepted(canon, z, Index(rows))
       <==> RemainsExclusive(TrimmedBatch(data), z.Keys) && AcceptableRecords(canon, Index(rows))
  {
    hide Faithful, Verdict, Accepted, AcceptableRecords, RowsOf, ProperBatch, RemainsExclusive, DistinctKeys, Merged, Exclusive;
    GoodVerdicts(data, z, known, partial, child, rows);
    DistinctIffProper(TrimmedBatch(data), rows);
    MergedRemains(TrimmedBatch(data), z, canon, rows);
    IndexMembers(rows);
    forall k | k in Index(rows) && k !in z && !IsEmpty(Index(rows)[k])
      ensures Index(rows)[k].records.Some? && Index(rows)[k].ttl.Some?
    {
      var i :| 0 <= i < |rows| && rows[i] == Index(rows)[k];
      CompleteRow(data, z, known, partial, child, i, rows[i]);
    }
    AcceptedIff(canon, z, Index(rows));
  }

  /** So a batch without white space around its keys, all verdicts on which are good, has unique keys, leaves an exclusive
      zone, and is accepted if and only if the records of each row make up an RRset. */
  lemma TidyBatchIsAccepted(data: seq<Item>, z: Zone, known: map<Key, RRset>, partial: bool, child: Child,
                            canon: Canonicalizer, rows: seq<Row>)
    requires Faithful(child, z.Keys) && TidyKeys(z.Keys) && Exclusive(z.Keys) && TidyBatch(data)
    requires known == z || known == map[]
    requires |rows| == |data|
    requires forall i :: 0 <= i < |data| ==> Verdict(data, z.Keys, known, partial, child, i) == Ok(rows[i])
    ensures DistinctKeys(rows) && Exclusive(Merged(canon, z, Index(rows)).Keys)
    ensures Accepted(canon, z, Index(rows)) <==> AcceptableRecords(canon, Index(rows))
  {
    hide Faithful, Verdict, Accepted, AcceptableRecords, RowsOf, ProperBatch, RemainsExclusive, DistinctKeys, Merged, Exclusive;
    TidyUnchanged(data);
    GoodVerdicts(data, z, known, partial, child, rows);
    CnameErrorIffExclusivityViolated(data, z.Keys, known, partial, child);
    ValidatedBatchIff(data, z, known, partial, child, canon, rows);
  }

  // ---------------------------------------------------------------------------------------------------------------
  // White space makes them disagree
  // ---------------------------------------------------------------------------------------------------------------

  /** A child serializer that checks no more than presence and uniqueness. */
  function SimpleChild(keys: set<Key>): Child {
    (item: Item, partial: bool, instance: Option<RRset>) =>
      if !FullyKeyed(item) || item.records.NotAList? then Err("invalid")
      else if !partial && (item.ttl.None? || item.records.NoRecords?) then Err("required")
      else if instance.None? && KeyIn(TrimmedItem(item)) in keys then Err("unique")
      else Ok(Row(KeyIn(TrimmedItem(item)), item.ttl, if item.records.RecordList? then Some(item.records.l) else None))
  }

  lemma SimpleChildIsFaithful(keys: set<Key>)
    ensures Faithful(SimpleChild(keys), keys)
  {
  }

  function AddressItem(subname: string, address: string): Item {
    Dictionary(Text(subname), Text("A"), Some(3600), RecordList([address]))
  }

  function AddressRow(address: string): Row {
    Row(Key("A", "www"), Some(3600), Some([address]))
  }

  lemma TrimmedExample()
    ensures Trimmed("www ") == "www" && Trimmed("www") == "www" && Trimmed("A") == "A"
  {
    assert "www "[..3] == "www";
  }

  lemma NewAddress(known: map<Key, RRset>, keys: set<Key>, subname: string, address: string, partial: bool)
    requires Trimmed(subname) == "www" && Key("A", "www") !in keys && Key("A", subname) !in known
    ensures var item := AddressItem(subname, address);
            item.records != RecordList([]) && SimpleChild(keys)(item, partial, None) == Ok(AddressRow(address))
  {
    hide Trimmed;
    TrimmedExample();
    var item := AddressItem(subname, address);
    assert |item.records.l| == 1;
    assert FullyKeyed(item) && KeyIn(TrimmedItem(item)) == Key("A", "www");
  }

  /** Next to a CNAME RRset at "www", an address RRset at "www " passes the validation and then violates exclusivity. */
  lemma TrimmedConflict(canon: Canonicalizer, partial: bool)
    ensures var z: Zone := map[Key("CNAME", "www") := RRset(3600, {"example.com."})];
            && Verdict([AddressItem("www ", "192.0.2.1")], z.Keys, z, partial, SimpleChild(z.Keys), 0)
               == Ok(AddressRow("192.0.2.1"))
            && !Exclusive(Merged(canon, z, Index([AddressRow("192.0.2.1")])).Keys)
            && !Accepted(canon, z, Index([AddressRow("192.0.2.1")]))
  {
    hide Trimmed, Verdict, SimpleChild, Index, Merged, Exclusive;
    var z: Zone := map[Key("CNAME", "www") := RRset(3600, {"example.com."})];
    var data, row := [AddressItem("www ", "192.0.2.1")], AddressRow("192.0.2.1");
    TrimmedExample();
    NewAddress(z, z.Keys, "www ", "192.0.2.1", false);
    forall k | Remains(data, z.Keys, k) ensures k == Key("A", "www ") || k == Key("CNAME", "www") {
    }
    ChildDecides(data, z.Keys, z, partial, SimpleChild(z.Keys), 0);
    NextToCname(canon, z, row);
  }

  lemma NextToCname(canon: Canonicalizer, z: Zone, row: Row)
    requires Key("CNAME", "www") in z && row.key == Key("A", "www") && !IsEmpty(row)
    ensures !Exclusive(Merged(canon, z, Index([row])).Keys) && !Accepted(canon, z, Index([row]))
  {
    assert [row][..0] == [];
    assert Index([row]) == map[row.key := row];
    var m := Merged(canon, z, Index([row]));
    assert Key("A", "www") in m && Key("CNAME", "www") in m;
  }

  /** Address RRsets at "www" and at "www " pass the validation, and the update drops the first one. */
  lemma TrimmedDuplicate(canon: Canonicalizer, partial: bool)
    ensures var data := [AddressItem("www", "192.0.2.1"), AddressItem("www ", "192.0.2.2")];
            var rows := [AddressRow("192.0.2.1"), AddressRow("192.0.2.2")];
            && Verdict(data, {}, map[], partial, SimpleChild({}), 0) == Ok(rows[0])
            && Verdict(data, {}, map[], partial, SimpleChild({}), 1) == Ok(rows[1])
            && !DistinctKeys(rows) && Index(rows) == map[Key("A", "www") := rows[1]]
            && Merged(canon, map[], Index(rows))
               == map[Key("A", "www") := RRset(3600, CanonicalSet(canon, "A", ["192.0.2.2"]))]
  {
    hide Trimmed, Verdict, SimpleChild;
    var data := [AddressItem("www", "192.0.2.1"), AddressItem("www ", "192.0.2.2")];
    TrimmedExample();
    NewAddress(map[], {}, "www", "192.0.2.1", false);
    NewAddress(map[], {}, "www ", "192.0.2.2", false);
    forall k | Remains(data, {}, k) ensures k.rrtype == "A" {
    }
    ChildDecides(data, {}, map[], partial, SimpleChild({}), 0);
    ChildDecides(data, {}, map[], partial, SimpleChild({}), 1);
    LastOfTwo(AddressRow("192.0.2.1"), AddressRow("192.0.2.2"));
  }

  lemma LastOfTwo(first: Row, second: Row)
    requires first.key == second.key && !IsEmpty(first)
    ensures !DistinctKeys([first, second]) && Index([first, second]) == map[second.key := second]
  {
    var rows := [first, second];
    assert rows[0].key == rows[1].key;
    assert rows[..1] == [first] && [first][..0] == [];
    assert Index([first]) == map[first.key := first];
  }
}
