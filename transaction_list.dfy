/** The transaction list: a search over merchant and category, and the
    matches newest first. */
module TransactionList {
  import opened Types
  import opened Seqs
  import opened Text

  /** The search predicate: the lowercased merchant name or category name
      includes the lowercased search term. */
  function MatchesTerm(term: string): Transaction -> bool {
    (t: Transaction) =>
      Contains(Lower(t.merchantName), Lower(term)) || Contains(Lower(t.category.Name()), Lower(term))
  }

  /** `filtered`. */
  function Filtered(ts: seq<Transaction>, term: string): (r: seq<Transaction>)
    ensures forall t :: t in r <==> t in ts && MatchesTerm(term)(t)
  {
    Filter(ts, MatchesTerm(term))
  }

  /** The matches keep the list's order. */
  lemma FilteredKeepsOrder(a: seq<Transaction>, b: seq<Transaction>, term: string)
    ensures Filtered(a + b, term) == Filtered(a, term) + Filtered(b, term)
  {
    FilterAppend(a, b, MatchesTerm(term));
  }

  /** An empty search term matches every transaction. */
  lemma EmptyTermKeepsAll(ts: seq<Transaction>)
    ensures Filtered(ts, "") == ts
  {
    assert Lower("") == "";
    forall t | t in ts ensures MatchesTerm("")(t) {
      ContainsEmpty(Lower(t.merchantName));
    }
    FilterKeepsAll(ts, MatchesTerm(""));
  }

  /** The sort key: the date's timestamp. */
  function Timestamp(t: Transaction): real { t.date as real }

  /** `sorted`: a sorted copy of the matches, newest first. */
  function Sorted(ts: seq<Transaction>, term: string): (r: seq<Transaction>)
    ensures multiset(r) == multiset(Filtered(ts, term))
    ensures forall i, j :: 0 <= i < j < |r| ==> r[i].date >= r[j].date
  {
    var r := SortDesc(Filtered(ts, term), Timestamp);
    assert forall i, j :: 0 <= i < j < |r| ==> Timestamp(r[i]) >= Timestamp(r[j]);
    r
  }

  /** What the list shows. */
  datatype View = NoTransactions | Rows(rows: seq<Transaction>)

  function Render(ts: seq<Transaction>, term: string): View {
    if |ts| == 0 then NoTransactions else Rows(Sorted(ts, term))
  }

  /** The "no transactions" message depends on the list alone: a search that
      matches nothing shows no rows, not the message. */
  lemma RenderEmptyState(ts: seq<Transaction>, term: string, other: string)
    ensures Render(ts, term).NoTransactions? <==> ts == []
    ensures Render(ts, term).NoTransactions? == Render(ts, other).NoTransactions?
    ensures ts != [] && (forall t :: t in ts ==> !MatchesTerm(term)(t)) ==> Render(ts, term) == Rows([])
  {
    if ts != [] && forall t :: t in ts ==> !MatchesTerm(term)(t) {
      HeadIsMember(Filtered(ts, term));
    }
  }
}
