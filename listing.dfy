/** One listing card: the attribute scan that fills the four counters LT, LB, KT and KM, and
    the record built from a card whose price is positive. The DOM lookups themselves are not
    modelled: a card arrives as its title text, its price text and its attribute texts. */
module Listing {
  import opened Wrappers
  import opened Text
  import opened Normalise

  /** A listing card after the DOM lookups: the `h2` (or titled link) text, the price element
      text, and the texts of its `ui-atomic-text` elements in document order. */
  datatype Item = Item(title: Option<string>, priceText: Option<string>, attributes: seq<string>)

  /** The scan's counters: land area, building area, bedrooms, bathrooms. */
  datatype Counters = Counters(lt: int, lb: int, kt: int, km: int)

  /** One admitted listing: the row the scraper appends, columns NAMA RUMAH, HARGA, LB, LT,
      KT, KM, GRS. */
  datatype Record = Record(name: string, price: int, lb: int, lt: int, kt: int, km: int, grs: int)

  /** The name used when a card has no title. */
  const NoTitle: string := "N/A"
  /** The price text used when a card has no price element. */
  const NoPrice: string := "0"
  const DefaultArea: int := 100
  const DefaultBedrooms: int := 2
  const DefaultBathrooms: int := 1
  /** Garages are never scraped: every record says 1. */
  const Garages: int := 1

  /** `"m²" in val`: the attribute is an area. */
  predicate IsArea(val: string) {
    Contains(val, "m²")
  }

  /** `val.isdigit() and len(val) < 3`: the attribute is a room count. */
  predicate IsRoomCount(val: string) {
    IsDigitString(val) && |val| < 3
  }

  /** The attributes on which `int(val)` raises ValueError: a short `isdigit` text holding a
      superscript digit ("²", "1³"). The exception abandons the whole card. */
  predicate Raises(val: string) {
    !IsArea(val) && IsRoomCount(val) && !IsNumeral(val)
  }

  /** One turn of the attribute loop; None is the ValueError of `int(val)`. */
  function Step(c: Counters, val: string): Option<Counters> {
    if IsArea(val) then
      Some(if c.lt == 0 then c.(lt := ParseInt(val)) else c.(lb := ParseInt(val)))
    else if IsRoomCount(val) then
      if !IsNumeral(val) then None
      else Some(if c.kt == 0 then c.(kt := Value(val)) else c.(km := Value(val)))
    else Some(c)
  }

  /** The counters after scanning `attrs` from all zeros, or None once `int(val)` raised. */
  function Scan(attrs: seq<string>): Option<Counters> {
    if attrs == [] then Some(Counters(0, 0, 0, 0))
    else match Scan(attrs[..|attrs| - 1])
      case None => None
      case Some(c) => Step(c, attrs[|attrs| - 1])
  }

  /** Once `int(val)` has raised, later attributes cannot undo it. */
  lemma {:induction false} ScanFailureStays(attrs: seq<string>, i: int)
    requires 0 <= i <= |attrs| && Scan(attrs[..i]) == None
    ensures Scan(attrs) == None
    decreases |attrs| - i
  {
    if i < |attrs| {
      assert attrs[..i + 1][..i] == attrs[..i];
      ScanFailureStays(attrs, i + 1);
    } else {
      assert attrs[..i] == attrs;
    }
  }

  /** The attribute loop of one card (lines 60 and 71-81). */
  method ScanAttributes(attrs: seq<string>) returns (res: Option<Counters>)
    ensures res == Scan(attrs)
  {
    var lt, lb, kt, km := 0, 0, 0, 0;
    var i := 0;
    while i < |attrs|
      invariant 0 <= i <= |attrs|
      invariant Scan(attrs[..i]) == Some(Counters(lt, lb, kt, km))
    {
      var val := attrs[i];
      assert attrs[..i + 1][..i] == attrs[..i];
      if IsArea(val) {
        if lt == 0 { lt := ParseInt(val); } else { lb := ParseInt(val); }
      } else if IsRoomCount(val) {
        if !IsNumeral(val) {
          // int(val) raises ValueError; the card's except clause drops it
          ScanFailureStays(attrs, i + 1);
          return None;
        }
        if kt == 0 { kt := Value(val); } else { km := Value(val); }
      }
      i := i + 1;
    }
    assert attrs[..i] == attrs;
    res := Some(Counters(lt, lb, kt, km));
  }

  /** Every area text contains '²', which `parse_int` cannot read, so LT and LB stay 0
      whatever the card says. */
  lemma {:induction false} ScanAreasStayZero(attrs: seq<string>)
    requires Scan(attrs).Some?
    ensures Scan(attrs).value.lt == 0 && Scan(attrs).value.lb == 0
    decreases |attrs|
  {
    if attrs != [] {
      var val := attrs[|attrs| - 1];
      ScanAreasStayZero(attrs[..|attrs| - 1]);
      if IsArea(val) {
        ContainsAt(val, "m²", 1);
        var i :| 0 <= i < |val| && val[i] == '²';
        ParseIntSuperscript(val, i);
      }
    }
  }

  /** The scan fails exactly when some attribute is a short digit text `int()` rejects. */
  lemma {:induction false} ScanFailsIff(attrs: seq<string>)
    ensures Scan(attrs).None? <==> exists i :: 0 <= i < |attrs| && Raises(attrs[i])
    decreases |attrs|
  {
    if attrs != [] {
      var init := attrs[..|attrs| - 1];
      ScanFailsIff(init);
      if exists i :: 0 <= i < |init| && Raises(init[i]) {
        var i :| 0 <= i < |init| && Raises(init[i]);
        assert attrs[i] == init[i];
      }
      if exists i :: 0 <= i < |attrs| && Raises(attrs[i]) {
        var i :| 0 <= i < |attrs| && Raises(attrs[i]);
        if i < |init| {
          assert init[i] == attrs[i];
        }
      }
    }
  }

  /** The room counts among the attributes, in document order: the short numerals that are
      not areas. */
  function RoomCounts(attrs: seq<string>): seq<nat> {
    if attrs == [] then []
    else
      var val := attrs[|attrs| - 1];
      RoomCounts(attrs[..|attrs| - 1])
      + (if !IsArea(val) && IsRoomCount(val) && IsNumeral(val) then [Value(val)] else [])
  }

  /** Index of the first non-zero count, or |ns| when every count is 0. */
  function FirstNonzero(ns: seq<nat>): (k: nat)
    ensures k <= |ns|
    ensures k < |ns| ==> ns[k] != 0
    ensures forall j :: 0 <= j < k ==> ns[j] == 0
  {
    if ns == [] then 0 else if ns[0] != 0 then 0 else 1 + FirstNonzero(ns[1..])
  }

  /** KT and KM as the room counts `ns` determine them: KT the first non-zero count (a
      leading "0" does not fill it), KM the last count after that one, each 0 when absent. */
  predicate RoomsMatch(c: Counters, ns: seq<nat>) {
    var k := FirstNonzero(ns);
    c.kt == (if k < |ns| then ns[k] else 0) &&
    c.km == (if k + 1 < |ns| then ns[|ns| - 1] else 0)
  }

  /** A count appended after a non-zero one leaves the first non-zero where it was. */
  lemma {:induction false} FirstNonzeroSnoc(ns: seq<nat>, x: nat)
    ensures var k := FirstNonzero(ns);
            FirstNonzero(ns + [x]) == (if k < |ns| then k else if x != 0 then |ns| else |ns| + 1)
    decreases |ns|
  {
    if ns == [] {
      assert ns + [x] == [x];
    } else {
      assert (ns + [x])[1..] == ns[1..] + [x];
      assert (ns + [x])[0] == ns[0];
      FirstNonzeroSnoc(ns[1..], x);
    }
  }

  /** One room count keeps the counters in step with the counts seen so far. */
  lemma StepRooms(c: Counters, ns: seq<nat>, val: string)
    requires RoomsMatch(c, ns) && !IsArea(val) && IsRoomCount(val) && IsNumeral(val)
    ensures Step(c, val).Some? && RoomsMatch(Step(c, val).value, ns + [Value(val)])
  {
    FirstNonzeroSnoc(ns, Value(val));
    var k := FirstNonzero(ns);
    if k < |ns| {
      assert (ns + [Value(val)])[k] == ns[k];
    }
  }

  /** An attribute that is no room count leaves KT and KM alone. */
  lemma StepKeepsRooms(c: Counters, val: string)
    requires Step(c, val).Some? && !(!IsArea(val) && IsRoomCount(val) && IsNumeral(val))
    ensures Step(c, val).value.kt == c.kt && Step(c, val).value.km == c.km
  {
  }

  /** The last attribute's effect on the counts: one more count when it is a room count. */
  lemma RoomCountsLast(attrs: seq<string>)
    requires attrs != []
    ensures var val := attrs[|attrs| - 1];
            RoomCounts(attrs) == RoomCounts(attrs[..|attrs| - 1])
              + (if !IsArea(val) && IsRoomCount(val) && IsNumeral(val) then [Value(val)] else [])
  {
  }

  /** A successful scan of a non-empty list is a successful scan of all but the last
      attribute, followed by one Step. */
  lemma ScanLast(attrs: seq<string>)
    requires attrs != [] && Scan(attrs).Some?
    ensures Scan(attrs[..|attrs| - 1]).Some?
    ensures Scan(attrs) == Step(Scan(attrs[..|attrs| - 1]).value, attrs[|attrs| - 1])
  {
  }

  /** The scan's counters follow the room counts: see RoomsMatch. */
  lemma {:induction false} ScanRooms(attrs: seq<string>)
    requires Scan(attrs).Some?
    ensures RoomsMatch(Scan(attrs).value, RoomCounts(attrs))
    decreases |attrs|
  {
    if attrs != [] {
      var init := attrs[..|attrs| - 1];
      var val := attrs[|attrs| - 1];
      ScanLast(attrs);
      ScanRooms(init);
      RoomCountsLast(attrs);
      var c := Scan(init).value;
      if !IsArea(val) && IsRoomCount(val) && IsNumeral(val) {
        StepRooms(c, RoomCounts(init), val);
      } else {
        assert RoomCounts(init) + [] == RoomCounts(init);
        StepKeepsRooms(c, val);
      }
    }
  }

  /** The counters a successful scan leaves: no area, and room counts of at most two digits. */
  lemma {:induction false} ScanBounds(attrs: seq<string>)
    requires Scan(attrs).Some?
    ensures var c := Scan(attrs).value;
            c.lt == 0 && c.lb == 0 && 0 <= c.kt < 100 && 0 <= c.km < 100
    decreases |attrs|
  {
    ScanAreasStayZero(attrs);
    if attrs != [] {
      var val := attrs[|attrs| - 1];
      ScanBounds(attrs[..|attrs| - 1]);
      if !IsArea(val) && IsRoomCount(val) && IsNumeral(val) {
        ValueBound(val);
        assert Pow10(|val|) <= 100;
      }
    }
  }

  /** The record appended for a card whose counters are `c` (lines 84-92): every feature the
      scan did not fill (0) is replaced by its default, so all five are positive. */
  function MakeRecord(name: string, price: int, c: Counters): (r: Record)
    ensures r.name == name && r.price == price && r.grs == Garages
    ensures c.lb > 0 ==> r.lb == c.lb
    ensures c.lb <= 0 ==> r.lb == DefaultArea
    ensures c.lt > 0 ==> r.lt == c.lt
    ensures c.lt <= 0 ==> r.lt == DefaultArea
    ensures c.kt > 0 ==> r.kt == c.kt
    ensures c.kt <= 0 ==> r.kt == DefaultBedrooms
    ensures c.km > 0 ==> r.km == c.km
    ensures c.km <= 0 ==> r.km == DefaultBathrooms
    ensures r.lb > 0 && r.lt > 0 && r.kt > 0 && r.km > 0 && r.grs > 0
  {
    Record(name,
           price,
           if c.lb > 0 then c.lb else DefaultArea,
           if c.lt > 0 then c.lt else DefaultArea,
           if c.kt > 0 then c.kt else DefaultBedrooms,
           if c.km > 0 then c.km else DefaultBathrooms,
           Garages)
  }

  /** What one card contributes (lines 47-96): a record when the scan did not raise and the
      price is positive, nothing otherwise. */
  function Extract(item: Item): Option<Record> {
    var name := item.title.GetOr(NoTitle);
    var price := CleanPrice(item.priceText.GetOr(NoPrice));
    match Scan(item.attributes)
    case None => None
    case Some(c) => if price > 0 then Some(MakeRecord(name, price, c)) else None
  }

  /** The body of the per-card loop, with its `try`/`except`. */
  method ParseItem(item: Item) returns (rec: Option<Record>)
    ensures rec == Extract(item)
  {
    var name := if item.title.Some? then item.title.value else NoTitle;
    var priceText := if item.priceText.Some? then item.priceText.value else NoPrice;
    var price := CleanPrice(priceText);
    var counters := ScanAttributes(item.attributes);
    if counters.None? {
      // "Error parsing item": skip the card
      return None;
    }
    if price > 0 {
      rec := Some(MakeRecord(name, price, counters.value));
    } else {
      rec := None;
    }
  }

  /** The records the scraper keeps: positive price, both areas at the default 100 (the
      '²' quirk), one or two digit room counts, one garage. */
  predicate Admissible(r: Record) {
    && r.price > 0
    && r.lb == DefaultArea && r.lt == DefaultArea
    && 0 < r.kt < 100 && 0 < r.km < 100
    && r.grs == Garages
  }

  /** A card is kept exactly when its price is positive and no attribute made `int()` raise. */
  lemma ExtractAdmits(item: Item)
    ensures Extract(item).Some? <==>
            CleanPrice(item.priceText.GetOr(NoPrice)) > 0 &&
            forall i :: 0 <= i < |item.attributes| ==> !Raises(item.attributes[i])
  {
    ScanFailsIff(item.attributes);
  }

  /** Every record kept is admissible, named after the title (or "N/A"), priced by
      `clean_price`, and carries the scanned room counts where they are non-zero. */
  lemma ExtractRecord(item: Item)
    requires Extract(item).Some?
    ensures var r := Extract(item).value;
            var c := Scan(item.attributes).value;
            Admissible(r) &&
            r.name == item.title.GetOr(NoTitle) &&
            r.price == CleanPrice(item.priceText.GetOr(NoPrice)) &&
            r.kt == (if c.kt > 0 then c.kt else DefaultBedrooms) &&
            r.km == (if c.km > 0 then c.km else DefaultBathrooms)
  {
    ScanBounds(item.attributes);
  }

  /** A card without a price element reads "0" and is never kept. */
  lemma MissingPriceDropped(item: Item)
    requires item.priceText.None?
    ensures Extract(item).None?
  {
    assert Show(0) == NoPrice;
    CleanPriceNumeral(0);
  }
}
