// The attribute table as the three modes show it: printAttributes in
// internal/printer/ata.go, AttrNames and AttrByName in internal/ata/smart.go.
module AttrModes {
  import opened GoInt
  import opened Bits
  import opened LittleEndian
  import opened Scan
  import opened Sector
  import opened AtaSmart
  import opened AttrTable

  datatype WhenFailed = Never | FailingNow | InThePast

  datatype Row = Row(
    id: uint8, name: string, flags: uint16, current: uint8, worst: uint8, threshold: uint8,
    prefail: bool, online: bool, whenFailed: WhenFailed, raw: uint64)

  // What printAttributes writes: the revision line, and the rows below the fixed headings.
  datatype Table = Table(revision: uint16, rows: seq<Row>)

  ghost predicate Present(a: Attribute) { a.id != 0 }

  // --- what the modes show of one slot ---

  ghost function NameOf(rpm: int): (nat, Attribute) -> string {
    (i: nat, a: Attribute) => AttrName(a.id, rpm)
  }

  ghost function WhenFailedOf(a: Attribute, threshold: uint8): WhenFailed {
    if threshold == 0 || (a.current > threshold && a.worst > threshold) then Never
    else if a.current <= threshold then FailingNow
    else InThePast
  }

  // A slot is judged by the threshold in the same position of the threshold sector.
  ghost function RowOf(st: SmartThresholds, rpm: int): (nat, Attribute) -> Row {
    (i: nat, a: Attribute) =>
      var threshold := if i < NUM_ATTRIBUTES then st.thresholds[i] else 0;
      Row(a.id, AttrName(a.id, rpm), a.flags, a.current, a.worst, threshold,
          a.flags % 2 == 1, a.flags / 2 % 2 == 1, WhenFailedOf(a, threshold), a.RawValue48())
  }

  ghost function ListedNames(sv: SmartValues, rpm: int): seq<string> {
    Rows(sv.attributes, Present, NameOf(rpm))
  }

  ghost function PrintedRows(sv: SmartValues, st: SmartThresholds, rpm: int): seq<Row> {
    Rows(sv.attributes, Present, RowOf(st, rpm))
  }

  ghost predicate Matches(a: Attribute, name: string, rpm: int) {
    Present(a) && AttrName(a.id, rpm) == name
  }

  // The slot of the first present attribute with the name.
  ghost function Found(sv: SmartValues, name: string, rpm: int): (r: Option<nat>)
    ensures r.Some? ==> r.value < NUM_ATTRIBUTES && Matches(sv.attributes[r.value], name, rpm)
    ensures forall j: nat ::
              j < (if r.Some? then r.value else NUM_ATTRIBUTES) ==> !Matches(sv.attributes[j], name, rpm)
  {
    FoundFrom(sv, name, rpm, 0)
  }

  ghost function FoundFrom(sv: SmartValues, name: string, rpm: int, i: nat): (r: Option<nat>)
    requires i <= NUM_ATTRIBUTES
    ensures r.Some? ==> i <= r.value < NUM_ATTRIBUTES && Matches(sv.attributes[r.value], name, rpm)
    ensures forall j: nat ::
              i <= j < (if r.Some? then r.value else NUM_ATTRIBUTES) ==> !Matches(sv.attributes[j], name, rpm)
    decreases NUM_ATTRIBUTES - i
  {
    if i == NUM_ATTRIBUTES then None
    else if Matches(sv.attributes[i], name, rpm) then Some(i)
    else FoundFrom(sv, name, rpm, i + 1)
  }

  // --- what the modes must show, stated on the stored attributes ---

  ghost function UsedSlots(sv: SmartValues): set<nat> {
    set p: nat | p < NUM_ATTRIBUTES && sv.attributes[p].id != 0
  }

  // What a row says of an attribute and of the threshold it is judged by.
  ghost predicate Describes(row: Row, a: Attribute, threshold: uint8, rpm: int) {
    && row.id == a.id && row.name == AttrName(a.id, rpm)
    && row.flags == a.flags && row.current == a.current && row.worst == a.worst && row.threshold == threshold
    && (row.prefail <==> a.flags % 2 == 1)
    && (row.online <==> a.flags / 2 % 2 == 1)
    && (row.whenFailed == FailingNow <==> threshold > 0 && a.current <= threshold)
    && (row.whenFailed == InThePast <==> threshold > 0 && a.current > threshold && a.worst <= threshold)
    && row.raw == LE(a.raw)
  }

  // The revision, and for each used slot in order a row that describes its attribute
  // with the threshold stored in the same position.
  ghost predicate ShowsAttributes(t: Table, sv: SmartValues, st: SmartThresholds, rpm: int) {
    && t.revision == sv.revNumber
    && exists slots ::
         && Lists(slots, UsedSlots(sv)) && |slots| == |t.rows|
         && forall j :: 0 <= j < |slots| ==>
              slots[j] < NUM_ATTRIBUTES
              && Describes(t.rows[j], sv.attributes[slots[j]], st.thresholds[slots[j]], rpm)
  }

  ghost predicate ShowsNames(names: seq<string>, sv: SmartValues, rpm: int) {
    exists slots ::
      && Lists(slots, UsedSlots(sv)) && |slots| == |names|
      && forall j :: 0 <= j < |slots| ==>
           slots[j] < NUM_ATTRIBUTES && names[j] == AttrName(sv.attributes[slots[j]].id, rpm)
  }

  lemma RowDescribes(st: SmartThresholds, rpm: int, i: nat, a: Attribute)
    requires i < NUM_ATTRIBUTES
    ensures Describes(RowOf(st, rpm)(i, a), a, st.thresholds[i], rpm)
  {
    RawValueIsLE(a);
  }

  lemma PrintedDescribe(sv: SmartValues, st: SmartThresholds, rpm: int)
    ensures ShowsAttributes(Table(sv.revNumber, PrintedRows(sv, st, rpm)), sv, st, rpm)
  {
    var rows, slots := PrintedRows(sv, st, rpm), Selected(sv.attributes, Present);
    SelectedLists(sv.attributes, Present, UsedSlots(sv));
    RowsOfSelected(sv.attributes, Present, RowOf(st, rpm));
    forall j | 0 <= j < |slots|
      ensures slots[j] < NUM_ATTRIBUTES
              && Describes(rows[j], sv.attributes[slots[j]], st.thresholds[slots[j]], rpm)
    {
      RowDescribes(st, rpm, slots[j], sv.attributes[slots[j]]);
    }
  }

  lemma ListedShow(sv: SmartValues, rpm: int)
    ensures ShowsNames(ListedNames(sv, rpm), sv, rpm)
  {
    SelectedLists(sv.attributes, Present, UsedSlots(sv));
    RowsOfSelected(sv.attributes, Present, NameOf(rpm));
  }

  // --- the scans ---

  method PrintAttributes(sv: SmartValues, st: SmartThresholds, rpm: int) returns (t: Table)
    ensures t == Table(sv.revNumber, PrintedRows(sv, st, rpm))
    ensures ShowsAttributes(t, sv, st, rpm)
  {
    var w := [];
    for i := 0 to NUM_ATTRIBUTES
      invariant w == Rows(sv.attributes[..i], Present, RowOf(st, rpm))
    {
      RowsStep(sv.attributes, i, Present, RowOf(st, rpm));
      var a := sv.attributes[i];
      if a.id == 0 {
        continue;
      }
      var threshold := st.thresholds[i];
      var whenFailed := Never;
      if threshold > 0 && a.current <= threshold {
        whenFailed := FailingNow;
      } else if threshold > 0 && a.worst <= threshold {
        whenFailed := InThePast;
      }
      FlagBits(a);
      var raw := a.RawValue48();
      w := w + [Row(a.id, AttrName(a.id, rpm), a.flags, a.current, a.worst, threshold,
                    a.IsPrefailure(), a.IsOnline(), whenFailed, raw)];
    }
    assert sv.attributes[..NUM_ATTRIBUTES] == sv.attributes;
    PrintedDescribe(sv, st, rpm);
    return Table(sv.revNumber, w);
  }

  lemma FlagBits(a: Attribute)
    ensures a.IsPrefailure() <==> a.flags % 2 == 1
    ensures a.IsOnline() <==> a.flags / 2 % 2 == 1
  {
    AndBit(a.flags, 0);
    AndBit(a.flags, 1);
  }

  method AttrNames(sv: SmartValues, rpm: int) returns (names: seq<string>)
    ensures names == ListedNames(sv, rpm)
    ensures ShowsNames(names, sv, rpm)
  {
    ListedShow(sv, rpm);
    names := [];
    for i := 0 to NUM_ATTRIBUTES
      invariant names == Rows(sv.attributes[..i], Present, NameOf(rpm))
    {
      RowsStep(sv.attributes, i, Present, NameOf(rpm));
      var a := sv.attributes[i];
      if a.id != 0 {
        names := names + [AttrName(a.id, rpm)];
      }
    }
    assert sv.attributes[..NUM_ATTRIBUTES] == sv.attributes;
  }

  // The slot of the first attribute with the name, where the source returns a pointer to it.
  method AttrByName(sv: SmartValues, name: string, rpm: int) returns (r: Option<nat>)
    ensures r == Found(sv, name, rpm)
  {
    for i := 0 to NUM_ATTRIBUTES
      invariant forall j: nat :: j < i ==> !Matches(sv.attributes[j], name, rpm)
    {
      var a := sv.attributes[i];
      if a.id != 0 && AttrName(a.id, rpm) == name {
        return Some(i);
      }
    }
    return None;
  }

  // The slot found is the one used slot with the name that has none before it.
  lemma FoundFirst(sv: SmartValues, name: string, rpm: int, i: nat)
    ensures Found(sv, name, rpm) == Some(i)
            <==> i in UsedSlots(sv) && AttrName(sv.attributes[i].id, rpm) == name
                 && forall j :: 0 <= j < i && j in UsedSlots(sv) ==> AttrName(sv.attributes[j].id, rpm) != name
  {
  }

  // --- agreement ---

  // The printed rows and the listed names go through the same slots in the same order.
  lemma NamesAgree(sv: SmartValues, st: SmartThresholds, rpm: int)
    ensures |PrintedRows(sv, st, rpm)| == |ListedNames(sv, rpm)|
    ensures forall j :: 0 <= j < |ListedNames(sv, rpm)| ==>
              PrintedRows(sv, st, rpm)[j].name == ListedNames(sv, rpm)[j]
  {
    RowsOfSelected(sv.attributes, Present, NameOf(rpm));
    RowsOfSelected(sv.attributes, Present, RowOf(st, rpm));
  }

  // A name can be got exactly when it is listed.
  lemma FoundIffListed(sv: SmartValues, name: string, rpm: int)
    ensures Found(sv, name, rpm).Some? <==> name in ListedNames(sv, rpm)
  {
    var names, sel := ListedNames(sv, rpm), Selected(sv.attributes, Present);
    SelectedExact(sv.attributes, Present);
    RowsOfSelected(sv.attributes, Present, NameOf(rpm));
    if Found(sv, name, rpm).Some? {
      var j :| 0 <= j < |sel| && sel[j] == Found(sv, name, rpm).value;
      assert names[j] == name;
    }
    if name in names {
      var j :| 0 <= j < |names| && names[j] == name;
      assert Matches(sv.attributes[sel[j]], name, rpm);
    }
  }

  // Slot i of the attribute sector is in use and has the name.
  ghost predicate NamedAt(s: Sector, rpm: int, name: string, i: nat) {
    i < NUM_ATTRIBUTES && s[2 + 12 * i] != 0 && AttrName(s[2 + 12 * i], rpm) == name
  }

  lemma NamedMatches(s: Sector, rpm: int, name: string, i: nat)
    ensures NamedAt(s, rpm, name, i) <==> i < NUM_ATTRIBUTES && Matches(SmartValuesAt(s).attributes[i], name, rpm)
  {
    if i < NUM_ATTRIBUTES {
      assert SmartValuesAt(s).attributes[i].id == s[2 + 12 * i];
    }
  }

  ghost predicate FirstNamed(s: Sector, rpm: int, name: string, i: nat) {
    NamedAt(s, rpm, name, i) && forall j: nat :: j < i ==> !NamedAt(s, rpm, name, j)
  }

  ghost predicate NoneNamed(s: Sector, rpm: int, name: string) { forall j: nat :: !NamedAt(s, rpm, name, j) }

  // Over the bytes: the slot found is the first one that has the name, if there is one.
  lemma FoundByBytes(s: Sector, rpm: int, name: string, i: nat)
    ensures Found(SmartValuesAt(s), name, rpm) == Some(i) <==> FirstNamed(s, rpm, name, i)
    ensures Found(SmartValuesAt(s), name, rpm) == None <==> NoneNamed(s, rpm, name)
  {
    var r := Found(SmartValuesAt(s), name, rpm);
    forall j: nat {:trigger NamedAt(s, rpm, name, j)} | (r.Some? ==> j < r.value)
      ensures !NamedAt(s, rpm, name, j)
    {
      NamedMatches(s, rpm, name, j);
    }
    if r.Some? {
      NamedMatches(s, rpm, name, r.value);
    }
  }

  // The value that is got is the raw value of the first printed row with the name,
  // even when names repeat.
  lemma FoundIsFirstRow(sv: SmartValues, st: SmartThresholds, name: string, rpm: int, j: nat)
    requires j < |PrintedRows(sv, st, rpm)| && PrintedRows(sv, st, rpm)[j].name == name
    requires forall i :: 0 <= i < j ==> PrintedRows(sv, st, rpm)[i].name != name
    ensures var r := Found(sv, name, rpm);
            r.Some? && PrintedRows(sv, st, rpm)[j].raw == sv.attributes[r.value].RawValue48()
  {
    var sel := Selected(sv.attributes, Present);
    SelectedExact(sv.attributes, Present);
    RowsOfSelected(sv.attributes, Present, RowOf(st, rpm));
    assert Matches(sv.attributes[sel[j]], name, rpm);
    var p := Found(sv, name, rpm).value;
    assert p in sel;
    var i :| 0 <= i < |sel| && sel[i] == p;
    assert PrintedRows(sv, st, rpm)[i].name == name;
  }

  // The value of a present slot can be got by its name exactly when no earlier slot is
  // in the same name class, which the identifiers alone decide.
  lemma ReachableIff(sv: SmartValues, rpm: int, i: nat)
    requires i < NUM_ATTRIBUTES && Present(sv.attributes[i])
    ensures Found(sv, AttrName(sv.attributes[i].id, rpm), rpm) == Some(i)
            <==> forall j :: 0 <= j < i && Present(sv.attributes[j]) ==>
                   NameClass(sv.attributes[j].id, rpm) != NameClass(sv.attributes[i].id, rpm)
  {
    var name := AttrName(sv.attributes[i].id, rpm);
    assert Matches(sv.attributes[i], name, rpm);
    forall j: nat | j < i
      ensures Matches(sv.attributes[j], name, rpm)
              <==> Present(sv.attributes[j])
                   && NameClass(sv.attributes[j].id, rpm) == NameClass(sv.attributes[i].id, rpm)
    {
      SameNameIff(sv.attributes[j].id, sv.attributes[i].id, rpm);
    }
  }

  // A hard disk that reports both temperature attributes: the second cannot be got.
  lemma ShadowedExample(sv: SmartValues)
    requires sv.attributes[0].id == 194 && sv.attributes[1].id == 231
    ensures AttrName(194, 7200) == AttrName(231, 7200) == "Temperature_Celsius"
    ensures Found(sv, "Temperature_Celsius", 7200) == Some(0)
  {
    assert Matches(sv.attributes[0], "Temperature_Celsius", 7200);
  }

  // The whole list depends on the rate only through its class.
  lemma ListByRateClass(sv: SmartValues, r: int, s: int)
    requires (r == 1 <==> s == 1) && (r > 1 <==> s > 1)
    ensures ListedNames(sv, r) == ListedNames(sv, s)
  {
    RowsOfSelected(sv.attributes, Present, NameOf(r));
    RowsOfSelected(sv.attributes, Present, NameOf(s));
    forall j | 0 <= j < |ListedNames(sv, r)| ensures ListedNames(sv, r)[j] == ListedNames(sv, s)[j] {
      NameByRateClass(sv.attributes[Selected(sv.attributes, Present)[j]].id, r, s);
    }
  }
}
