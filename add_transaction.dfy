/** The form that records a transaction: merchant autocomplete from the
    catalogue, the category prediction and the submit with its reset. */
module AddTransaction {
  import opened Types
  import opened Seqs
  import opened Text
  import opened Constants

  /** `m.name.toLowerCase().includes(val.toLowerCase())`. */
  function NameMatches(val: string): Merchant -> bool {
    (m: Merchant) => Contains(Lower(m.name), Lower(val))
  }

  /** The autocomplete list: the first five catalogue merchants whose name
      includes the input, ignoring case, in catalogue order. */
  function Suggest(catalogue: seq<Merchant>, val: string): (r: seq<Merchant>)
    ensures |r| <= 5
    ensures |r| == if |Filter(catalogue, NameMatches(val))| < 5 then |Filter(catalogue, NameMatches(val))| else 5
  {
    Take(Filter(catalogue, NameMatches(val)), 5)
  }

  /** The suggestions are matching catalogue merchants, they are the first of
      the matches, and when there are at most five matches all are shown. */
  lemma SuggestFirstMatches(catalogue: seq<Merchant>, val: string)
    ensures forall m :: m in Suggest(catalogue, val) ==> m in catalogue && NameMatches(val)(m)
    ensures Suggest(catalogue, val) == Filter(catalogue, NameMatches(val))[..|Suggest(catalogue, val)|]
    ensures |Filter(catalogue, NameMatches(val))| <= 5 ==> Suggest(catalogue, val) == Filter(catalogue, NameMatches(val))
  {
    var all := Filter(catalogue, NameMatches(val));
    forall m | m in Suggest(catalogue, val) ensures m in all {
      var i :| 0 <= i < |Suggest(catalogue, val)| && Suggest(catalogue, val)[i] == m;
      assert all[i] == m;
    }
  }

  /** The suggestions of a catalogue followed by more merchants start with
      those the catalogue alone gives: the catalogue order decides. */
  lemma SuggestCatalogueOrder(a: seq<Merchant>, b: seq<Merchant>, val: string)
    ensures Suggest(a, val) <= Suggest(a + b, val)
  {
    FilterAppend(a, b, NameMatches(val));
  }

  /** `Object.keys(Category).find(key => Category[key] === name)` over the
      enumeration members `cs`, in declaration order. */
  function FindCategory(cs: seq<Category>, name: string): (r: Option<Category>)
    ensures r.Some? <==> exists c :: c in cs && c.Name() == name
    ensures r.Some? ==> r.value in cs && r.value.Name() == name
  {
    if cs == [] then None
    else if cs[0].Name() == name then Some(cs[0])
    else FindCategory(cs[1..], name)
  }

  /** No two categories share a name: the first letter and the length of
      the name tell them apart. */
  lemma NameInjective(c: Category, d: Category)
    requires c.Name() == d.Name()
    ensures c == d
  {
    assert |c.Name()| == |d.Name()| && c.Name()[0] == d.Name()[0];
  }

  /** Every category is found by its own name. */
  lemma FindCategoryOwnName(c: Category)
    ensures FindCategory(AllCategories, c.Name()) == Some(c)
  {
    Listed(c);
    NameInjective(FindCategory(AllCategories, c.Name()).value, c);
  }

  /** The names of the categories are the only strings found. */
  lemma FindCategoryOnlyNames(name: string)
    ensures FindCategory(AllCategories, name).Some? <==> exists d: Category :: d.Name() == name
  {
    if FindCategory(AllCategories, name).None? {
      forall d: Category ensures d.Name() != name {
        Listed(d);
      }
    }
  }

  /** The category after a prediction: a non-empty answer that is the name
      of a category selects it; any other answer keeps `current`. */
  function PredictedCategory(predicted: Option<string>, current: Category): (r: Category)
    ensures predicted.Some? && predicted.value != "" && (exists c: Category :: c.Name() == predicted.value)
      ==> r.Name() == predicted.value
    ensures (predicted.None? || predicted.value == "" || forall c: Category :: c.Name() != predicted.value)
      ==> r == current
  {
    if predicted.Some? && predicted.value != "" then
      FindCategoryOnlyNames(predicted.value);
      match FindCategory(AllCategories, predicted.value)
      case Some(c) => c
      case None => current
    else current
  }

  /** `AllCategories` lists every category. */
  lemma Listed(c: Category)
    ensures c in AllCategories
  {
    match c
    case Groceries => assert AllCategories[0] == c;
    case Transport => assert AllCategories[1] == c;
    case Utilities => assert AllCategories[2] == c;
    case Shopping => assert AllCategories[3] == c;
    case Restaurant => assert AllCategories[4] == c;
    case Entertainment => assert AllCategories[5] == c;
    case Health => assert AllCategories[6] == c;
    case Housing => assert AllCategories[7] == c;
    case Salary => assert AllCategories[8] == c;
    case Other => assert AllCategories[9] == c;
  }

  class TransactionForm {
    /** The merchant catalogue the suggestions come from. */
    const catalogue: seq<Merchant>
    var amount: string
    var merchantInput: string
    var category: Category
    var kind: TransactionType
    var suggestions: seq<Merchant>
    var showSuggestions: bool
    var isPredicting: bool

    constructor ()
      ensures catalogue == FrenchMerchants
      ensures amount == "" && merchantInput == "" && category == Groceries && kind == Expense
      ensures suggestions == [] && !showSuggestions && !isPredicting
    {
      catalogue := FrenchMerchants;
      amount := "";
      merchantInput := "";
      category := Groceries;
      kind := Expense;
      suggestions := [];
      showSuggestions := false;
      isPredicting := false;
    }

    /** `handleMerchantChange`: typing shows the catalogue's suggestions;
        clearing the input hides them and keeps the old list. */
    method HandleMerchantChange(val: string)
      modifies this
      ensures merchantInput == val
      ensures |val| > 0 ==> suggestions == Suggest(catalogue, val) && showSuggestions
      ensures |val| == 0 ==> suggestions == old(suggestions) && !showSuggestions
      ensures amount == old(amount) && category == old(category) && kind == old(kind)
      ensures isPredicting == old(isPredicting)
    {
      merchantInput := val;
      if |val| > 0 {
        suggestions := Suggest(catalogue, val);
        showSuggestions := true;
      } else {
        showSuggestions := false;
      }
    }

    /** `selectMerchant`. */
    method SelectMerchant(m: Merchant)
      modifies this
      ensures merchantInput == m.name && category == m.defaultCategory && !showSuggestions
      ensures amount == old(amount) && kind == old(kind) && suggestions == old(suggestions)
      ensures isPredicting == old(isPredicting)
    {
      merchantInput := m.name;
      category := m.defaultCategory;
      showSuggestions := false;
    }

    /** The prediction button is enabled: no request is pending and a
        merchant is typed. */
    predicate CanPredict()
      reads this
    {
      !isPredicting && merchantInput != ""
    }

    /** `handleMagicPredict` up to its `await`: without a merchant and an
        amount nothing happens; otherwise the request for the typed merchant
        is sent and the form shows it pending. */
    method StartPredict() returns (request: Option<string>)
      modifies this
      ensures old(merchantInput) == "" || old(amount) == "" <==> request.None?
      ensures request.None? ==> isPredicting == old(isPredicting)
      ensures request.Some? ==> request.value == old(merchantInput) && isPredicting
      ensures merchantInput == old(merchantInput) && amount == old(amount) && kind == old(kind)
      ensures category == old(category)
      ensures suggestions == old(suggestions) && showSuggestions == old(showSuggestions)
    {
      if merchantInput == "" || amount == "" {
        return None;
      }
      isPredicting := true;
      request := Some(merchantInput);
    }

    /** `handleMagicPredict` after its `await`, with `predicted` the answer of
        the prediction service (`null` is `None`). The answer is applied to
        the form as it is now, whatever was typed or submitted while the
        request was pending, and the request is no longer pending. */
    method FinishPredict(predicted: Option<string>)
      modifies this
      ensures category == PredictedCategory(predicted, old(category))
      ensures !isPredicting
      ensures merchantInput == old(merchantInput) && amount == old(amount) && kind == old(kind)
      ensures suggestions == old(suggestions) && showSuggestions == old(showSuggestions)
    {
      category := PredictedCategory(predicted, category);
      isPredicting := false;
    }

    /** `handleSubmit`: with both fields filled, the arguments of the single
        `onAdd` call (`parsedAmount` is what `parseFloat` makes of the
        amount) and the form back to its defaults; otherwise nothing. */
    method HandleSubmit(parsedAmount: real) returns (added: Option<(real, TransactionType, Category, string)>)
      modifies this
      ensures old(amount) == "" || old(merchantInput) == "" <==> added.None?
      ensures added.None? ==>
        amount == old(amount) && merchantInput == old(merchantInput) && category == old(category) && kind == old(kind)
      ensures added.Some? ==> added.value == (parsedAmount, old(kind), old(category), old(merchantInput))
      ensures added.Some? ==> amount == "" && merchantInput == "" && kind == Expense && category == Groceries
      ensures suggestions == old(suggestions) && showSuggestions == old(showSuggestions)
      ensures isPredicting == old(isPredicting)
    {
      if amount == "" || merchantInput == "" {
        return None;
      }
      added := Some((parsedAmount, kind, category, merchantInput));
      amount := "";
      merchantInput := "";
      kind := Expense;
      category := Groceries;
    }
  }
}
