/**
 * The public catalog page (`src/pages/Products.tsx`): which built-in list a
 * route category shows, the manufacturer and subcategory choices, and the
 * search-and-select filter over the list.
 */
module ProductsPage {
  import opened Wrappers
  import opened Text
  import Seqs

  /** One entry of the page's built-in lists. */
  datatype Item = Item(id: string, name: string, partNumber: string, manufacturer: string, category: string, image: string)

  const AutomationItems: seq<Item> := [
    Item("plc-001", "Siemens S7-1200 PLC", "6ES7214-1AG40-0XB0", "Siemens", "PLC", "/placeholder.svg"),
    Item("hmi-001", "Siemens HMI Basic Panel", "6AV2123-2GB03-0AX0", "Siemens", "HMI", "/placeholder.svg"),
    Item("servo-001", "ABB Servo Drive", "3HAC028357-001", "ABB", "Servo Drive", "/placeholder.svg"),
    Item("io-001", "Schneider I/O Module", "TM3DI8", "Schneider Electric", "I/O Module", "/placeholder.svg")
  ]

  const ElectronicsItems: seq<Item> := [
    Item("acb-001", "ABB Air Circuit Breaker", "E2B-1600", "ABB", "ACB", "/placeholder.svg"),
    Item("mccb-001", "Schneider MCCB", "NSX250F", "Schneider Electric", "MCCB", "/placeholder.svg"),
    Item("contactor-001", "Siemens Contactor", "3RT2026-1AP00", "Siemens", "Contactor", "/placeholder.svg"),
    Item("relay-001", "ABB Overload Relay", "TA25DU-1.6", "ABB", "Overload Relay", "/placeholder.svg")
  ]

  /** The page's heading and the list it shows. */
  datatype Section = Section(title: string, items: seq<Item>)

  /** The route parameter `category` (absent when the route has none) picks the section. */
  function SectionFor(category: Option<string>): Section
  {
    if category == Some("electronics") then Section("Electronics & Switch Gears", ElectronicsItems)
    else Section("Marine & Industrial Automation", AutomationItems)
  }

  /** `items.map(p => p.manufacturer)`. */
  function MakerColumn(items: seq<Item>): (r: seq<string>)
    ensures |r| == |items| && forall i :: 0 <= i < |items| ==> r[i] == items[i].manufacturer
  {
    seq(|items|, i requires 0 <= i < |items| => items[i].manufacturer)
  }

  /** `items.map(p => p.category)`. */
  function CategoryColumn(items: seq<Item>): (r: seq<string>)
    ensures |r| == |items| && forall i :: 0 <= i < |items| ==> r[i] == items[i].category
  {
    seq(|items|, i requires 0 <= i < |items| => items[i].category)
  }

  /** The manufacturer choices: each manufacturer once, in order of first appearance. */
  function Manufacturers(items: seq<Item>): seq<string>
  {
    Seqs.Distinct(MakerColumn(items))
  }

  /** The subcategory choices: each item category once, in order of first appearance. */
  function Subcategories(items: seq<Item>): seq<string>
  {
    Seqs.Distinct(CategoryColumn(items))
  }

  /** The search box: the lower-cased term occurs in the lower-cased name or part number. */
  predicate MatchesSearch(item: Item, term: string)
  {
    Contains(Lower(item.name), Lower(term)) || Contains(Lower(item.partNumber), Lower(term))
  }

  /** All three filters; an empty selection imposes nothing. */
  predicate Matches(item: Item, term: string, manufacturer: string, subcategory: string)
  {
    && MatchesSearch(item, term)
    && (manufacturer == "" || item.manufacturer == manufacturer)
    && (subcategory == "" || item.category == subcategory)
  }

  function Keep(term: string, manufacturer: string, subcategory: string): Item -> bool
  {
    item => Matches(item, term, manufacturer, subcategory)
  }

  /** `filteredProducts`. */
  function FilteredProducts(items: seq<Item>, term: string, manufacturer: string, subcategory: string): seq<Item>
  {
    Seqs.Filter(items, Keep(term, manufacturer, subcategory))
  }

  /** Only the route category "electronics" shows the electronics list and title; anything else, or none, shows automation. */
  lemma SectionChoice(category: Option<string>)
    ensures category == Some("electronics") ==> SectionFor(category).items == ElectronicsItems
    ensures SectionFor(Some("electronics")).title == "Electronics & Switch Gears"
    ensures category != Some("electronics") ==> SectionFor(category) == SectionFor(None)
    ensures SectionFor(None).items == AutomationItems
    ensures SectionFor(None).title == "Marine & Industrial Automation"
  {
  }

  /**
   * Each manufacturer of the list appears among the choices exactly once,
   * nothing else does, and they come in order of first appearance.
   */
  lemma ManufacturerChoices(items: seq<Item>)
    ensures var ms := MakerColumn(items);
      var r := Manufacturers(items);
      && (forall i :: 0 <= i < |items| ==> items[i].manufacturer in r)
      && (forall j :: 0 <= j < |r| ==> exists i :: 0 <= i < |items| && items[i].manufacturer == r[j])
      && Seqs.NoDuplicates(r)
      && (forall i, j :: 0 <= i < j < |r| ==> Seqs.FirstIndex(ms, r[i]) < Seqs.FirstIndex(ms, r[j]))
  {
    var ms := MakerColumn(items);
    var r := Manufacturers(items);
    Seqs.DistinctInFirstOccurrenceOrder(ms);
    assert r == Seqs.Distinct(ms);
    forall j | 0 <= j < |r| ensures exists i :: 0 <= i < |items| && items[i].manufacturer == r[j] {
      var i := Seqs.FirstIndex(ms, r[j]);
      assert items[i].manufacturer == r[j];
    }
    forall i | 0 <= i < |items| ensures items[i].manufacturer in r {
      assert ms[i] == items[i].manufacturer;
    }
  }

  /** The same for the subcategory choices. */
  lemma SubcategoryChoices(items: seq<Item>)
    ensures var cs := CategoryColumn(items);
      var r := Subcategories(items);
      && (forall i :: 0 <= i < |items| ==> items[i].category in r)
      && (forall j :: 0 <= j < |r| ==> exists i :: 0 <= i < |items| && items[i].category == r[j])
      && Seqs.NoDuplicates(r)
      && (forall i, j :: 0 <= i < j < |r| ==> Seqs.FirstIndex(cs, r[i]) < Seqs.FirstIndex(cs, r[j]))
  {
    var cs := CategoryColumn(items);
    var r := Subcategories(items);
    Seqs.DistinctInFirstOccurrenceOrder(cs);
    assert r == Seqs.Distinct(cs);
    forall j | 0 <= j < |r| ensures exists i :: 0 <= i < |items| && items[i].category == r[j] {
      var i := Seqs.FirstIndex(cs, r[j]);
      assert items[i].category == r[j];
    }
    forall i | 0 <= i < |items| ensures items[i].category in r {
      assert cs[i] == items[i].category;
    }
  }

  /** The automation list offers three manufacturers, Siemens first. */
  lemma AutomationManufacturers()
    ensures Manufacturers(AutomationItems) == ["Siemens", "ABB", "Schneider Electric"]
  {
    var ms := MakerColumn(AutomationItems);
    assert ms == ["Siemens", "Siemens", "ABB", "Schneider Electric"];
    assert ms[..3] == ["Siemens", "Siemens", "ABB"];
    assert ms[..3][..2] == ["Siemens", "Siemens"];
    assert ms[..3][..2][..1] == ["Siemens"];
    assert Seqs.Distinct(["Siemens"]) == ["Siemens"];
    assert Seqs.Distinct(["Siemens", "Siemens"]) == ["Siemens"];
    assert Seqs.Distinct(["Siemens", "Siemens", "ABB"]) == ["Siemens", "ABB"];
  }

  /** The filtered list keeps the page's order and leaves entries out, never adds or repeats them. */
  lemma FilteredIsSubsequence(items: seq<Item>, term: string, manufacturer: string, subcategory: string)
    ensures Seqs.IsSubsequence(FilteredProducts(items, term, manufacturer, subcategory), items)
  {
    Seqs.FilterIsSubsequence(items, Keep(term, manufacturer, subcategory));
  }

  /** An entry is shown exactly when it is in the list and passes all three filters. */
  lemma FilteredMembership(items: seq<Item>, term: string, manufacturer: string, subcategory: string, x: Item)
    ensures x in FilteredProducts(items, term, manufacturer, subcategory) <==>
      x in items && Matches(x, term, manufacturer, subcategory)
  {
    Seqs.FilterMembership(items, Keep(term, manufacturer, subcategory), x);
  }

  /** The search ignores ASCII case in the term. */
  lemma SearchIgnoresCase(item: Item, term: string)
    ensures MatchesSearch(item, term) <==> MatchesSearch(item, Lower(term))
  {
    LowerIdempotent(term);
  }

  /** An empty search term matches every entry. */
  lemma EmptySearchMatches(item: Item)
    ensures MatchesSearch(item, "")
  {
    assert StartsWith(Lower(item.name), Lower(""));
  }

  /** A non-empty manufacturer or subcategory selection keeps only exact matches. */
  lemma SelectionsAreExact(item: Item, term: string, manufacturer: string, subcategory: string)
    requires Matches(item, term, manufacturer, subcategory)
    ensures manufacturer != "" ==> item.manufacturer == manufacturer
    ensures subcategory != "" ==> item.category == subcategory
  {
  }

  /** A cleared manufacturer or subcategory selection leaves only the other two tests. */
  lemma ClearedSelectionImposesNothing(item: Item, term: string, manufacturer: string, subcategory: string)
    ensures Matches(item, term, "", subcategory) <==>
      MatchesSearch(item, term) && (subcategory == "" || item.category == subcategory)
    ensures Matches(item, term, manufacturer, "") <==>
      MatchesSearch(item, term) && (manufacturer == "" || item.manufacturer == manufacturer)
  {
  }

  /** With all three filters cleared the page shows its whole list. */
  lemma ClearedFiltersShowAll(items: seq<Item>)
    ensures FilteredProducts(items, "", "", "") == items
  {
    forall i | 0 <= i < |items| ensures Keep("", "", "")(items[i]) {
      EmptySearchMatches(items[i]);
    }
    Seqs.FilterKeepsAll(items, Keep("", "", ""));
  }
}
