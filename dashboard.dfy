/**
 * The admin dashboard's logic (`src/pages/admin/dashboard/page.tsx`): the
 * category table and its link lookup, the per-tab product list, and the
 * form the add button submits to the products endpoint.
 */
module Dashboard {
  import opened Wrappers
  import opened Catalog
  import Seqs

  /** One entry of the category picker. */
  datatype CategoryOption = CategoryOption(value: string, caption: string, link: string)

  const Categories: seq<CategoryOption> := [
    CategoryOption("hydraulics", "Hydraulics", "/products/hydraulics"),
    CategoryOption("marine-engines", "Marine Engines", "/products/marine-engines"),
    CategoryOption("navigation", "Navigation & Radar", "/products/navigation-radar"),
    CategoryOption("electrical", "Electrical & Automation", "/products/electric-automation"),
    CategoryOption("safety", "Safety Items", "/products/safety-items")
  ]

  /** The category the form and the tabs start on. */
  const InitialCategory := "hydraulics"

  /** `table.find(c => c.value === value)`: the first entry with that value. */
  function FindOption(table: seq<CategoryOption>, value: string): (r: Option<CategoryOption>)
    ensures r.None? <==> forall k :: 0 <= k < |table| ==> table[k].value != value
    ensures r.Some? ==> r.value.value == value
    ensures r.Some? ==> exists k :: 0 <= k < |table| && table[k] == r.value &&
                                    forall j :: 0 <= j < k ==> table[j].value != value
  {
    if table == [] then None
    else if table[0].value == value then Some(table[0])
    else
      var r := FindOption(table[1..], value);
      assert r.Some? ==> exists k :: 0 <= k < |table[1..]| && table[1..][k] == r.value &&
                                     forall j :: 0 <= j < k ==> table[1..][j].value != value;
      assert r.Some? ==> exists k :: 1 <= k < |table| && table[k] == r.value &&
                                     forall j :: 0 <= j < k ==> table[j].value != value;
      r
  }

  /**
   * `getCategoryLink`: the entry's link, or "" when no entry has that value.
   * The source's `|| ""` also maps an empty link to "", which is the link itself.
   */
  function CategoryLink(category: string): string
  {
    match FindOption(Categories, category)
    case Some(entry) => entry.link
    case None => ""
  }

  /** The table has five entries, with pairwise distinct values and non-empty values and links. */
  lemma CategoryTable()
    ensures |Categories| == 5
    ensures forall i, j :: 0 <= i < j < |Categories| ==> Categories[i].value != Categories[j].value
    ensures forall k :: 0 <= k < |Categories| ==> Categories[k].value != "" && Categories[k].link != ""
  {
  }

  /** Every entry's value looks up that entry's own link. */
  lemma CategoryLinkOfEntry(k: nat)
    requires k < |Categories|
    ensures CategoryLink(Categories[k].value) == Categories[k].link
  {
    CategoryTable();
    var r := FindOption(Categories, Categories[k].value);
    assert r.Some?;
    var m :| 0 <= m < |Categories| && Categories[m] == r.value;
    assert m == k;
  }

  /** The link is empty exactly when the category is none of the table's values. */
  lemma CategoryLinkEmptyIffUnknown(category: string)
    ensures CategoryLink(category) == "" <==> forall k :: 0 <= k < |Categories| ==> Categories[k].value != category
  {
    CategoryTable();
    var r := FindOption(Categories, category);
    if r.Some? {
      var m :| 0 <= m < |Categories| && Categories[m] == r.value;
      assert Categories[m].link != "";
    }
  }

  /** The form starts on hydraulics, whose link is its products page. */
  lemma InitialCategoryLink()
    ensures CategoryLink(InitialCategory) == "/products/hydraulics"
  {
    CategoryLinkOfEntry(0);
  }

  function OnTab(tab: string): Product -> bool
  {
    (p: Product) => p.category == tab
  }

  /** The products listed under the active tab. */
  function TabProducts(products: seq<Product>, tab: string): seq<Product>
  {
    Seqs.Filter(products, OnTab(tab))
  }

  /**
   * The tab lists each product of that category as often as it is stored,
   * and nothing else, in the stored order.
   */
  lemma TabListsItsCategory(products: seq<Product>, tab: string, p: Product)
    ensures forall i :: 0 <= i < |TabProducts(products, tab)| ==> TabProducts(products, tab)[i].category == tab
    ensures multiset(TabProducts(products, tab))[p] == if p.category == tab then multiset(products)[p] else 0
    ensures p in TabProducts(products, tab) <==> p in products && p.category == tab
    ensures Seqs.IsSubsequence(TabProducts(products, tab), products)
  {
    Seqs.FilterCounts(products, OnTab(tab), p);
    Seqs.FilterMembership(products, OnTab(tab), p);
    Seqs.FilterIsSubsequence(products, OnTab(tab));
  }

  /** The form's text inputs. */
  datatype FormState = FormState(category: string, name: string, description: string)

  /** The multipart form `handleSubmit` sends: the three inputs, the looked-up link, and the chosen file. */
  function SubmittedForm(state: FormState, chosen: Option<FileRecord>): Form
  {
    Form(map["category" := state.category, "name" := state.name, "description" := state.description,
             "link" := CategoryLink(state.category)], chosen)
  }

  /** The form always carries the four text fields, with the link taken from the table, and a file only when one was chosen. */
  lemma SubmittedFormShape(state: FormState, chosen: Option<FileRecord>)
    ensures var f := SubmittedForm(state, chosen);
      && f.fields.Keys == {"category", "name", "description", "link"}
      && f.fields["category"] == state.category && f.fields["name"] == state.name
      && f.fields["description"] == state.description && f.fields["link"] == CategoryLink(state.category)
      && (f.image.Some? <==> chosen.Some?)
  {
  }

  /**
   * The endpoint's required-field check accepts the dashboard's form exactly
   * when the name and description are filled, a file was chosen and the
   * category is one of the table's values; an accepted form carries its inputs unchanged.
   */
  lemma SubmissionAcceptedIff(state: FormState, chosen: Option<FileRecord>)
    ensures Validate(SubmittedForm(state, chosen)).Some? <==>
      && state.name != "" && state.description != "" && chosen.Some?
      && exists k :: 0 <= k < |Categories| && Categories[k].value == state.category
    ensures Validate(SubmittedForm(state, chosen)).Some? ==>
      Validate(SubmittedForm(state, chosen)).value ==
        Submission(state.category, state.name, state.description, CategoryLink(state.category), chosen.value)
  {
    var f := SubmittedForm(state, chosen);
    assert Filled(f, "category") <==> state.category != "";
    assert Filled(f, "name") <==> state.name != "";
    assert Filled(f, "description") <==> state.description != "";
    assert Filled(f, "link") <==> CategoryLink(state.category) != "";
    CategoryLinkEmptyIffUnknown(state.category);
    if CategoryLink(state.category) != "" {
      KnownCategoryIsNamed(state.category);
    }
  }

  lemma KnownCategoryIsNamed(category: string)
    requires exists k :: 0 <= k < |Categories| && Categories[k].value == category
    ensures category != ""
  {
    CategoryTable();
  }
}
