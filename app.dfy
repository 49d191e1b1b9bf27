/** The application shell: the three stored lists (transactions, debts,
    group events) and the user profile, and the actions that update them.
    Each React setter call becomes an assignment to a field of `AppState`;
    the list update it applies is one of the pure functions below. */
module App {
  import opened Types
  import opened Seqs
  import opened Text

  function TransactionId(t: Transaction): string { t.id }
  function DebtId(d: Debt): string { d.id }
  function EventId(e: GroupEvent): string { e.id }

  /** `prev.filter(x => x.id !== target)`. */
  function RemoveById<T(!new)>(s: seq<T>, id: T -> string, target: string): (r: seq<T>)
    ensures |r| <= |s|
    ensures forall x :: x in r <==> x in s && id(x) != target
  {
    Filter(s, x => id(x) != target)
  }

  /** The elements whose id is `target`. */
  function WithId<T(!new)>(s: seq<T>, id: T -> string, target: string): (r: seq<T>)
    ensures forall x :: x in r <==> x in s && id(x) == target
  {
    Filter(s, x => id(x) == target)
  }

  /** Removing by id loses exactly the elements with that id: what is kept
      and what is dropped together are the original list. */
  lemma RemoveByIdExact<T(!new)>(s: seq<T>, id: T -> string, target: string)
    ensures multiset(RemoveById(s, id, target)) + multiset(WithId(s, id, target)) == multiset(s)
  {
    FilterPartition(s, x => id(x) != target, x => id(x) == target);
  }

  /** The kept elements stay in their original order: removal distributes
      over concatenation. */
  lemma RemoveByIdKeepsOrder<T(!new)>(a: seq<T>, b: seq<T>, id: T -> string, target: string)
    ensures RemoveById(a + b, id, target) == RemoveById(a, id, target) + RemoveById(b, id, target)
  {
    FilterAppend(a, b, x => id(x) != target);
  }

  /** Removing twice is removing once. */
  lemma RemoveByIdIdempotent<T(!new)>(s: seq<T>, id: T -> string, target: string)
    ensures RemoveById(RemoveById(s, id, target), id, target) == RemoveById(s, id, target)
  {
    FilterIdempotent(s, x => id(x) != target);
  }

  /** Removing an id that no element carries changes nothing. */
  lemma RemoveByIdAbsent<T(!new)>(s: seq<T>, id: T -> string, target: string)
    requires forall x :: x in s ==> id(x) != target
    ensures RemoveById(s, id, target) == s
  {
    FilterKeepsAll(s, x => id(x) != target);
  }

  /** `prev.map(x => x.id === target ? f(x) : x)`. */
  function UpdateById<T>(s: seq<T>, id: T -> string, target: string, f: T -> T): (r: seq<T>)
    ensures |r| == |s|
    ensures forall k :: 0 <= k < |s| && id(s[k]) != target ==> r[k] == s[k]
    ensures forall k :: 0 <= k < |s| && id(s[k]) == target ==> r[k] == f(s[k])
  {
    Map(s, x => if id(x) == target then f(x) else x)
  }

  /** Updating an id that no element carries changes nothing. */
  lemma UpdateByIdAbsent<T>(s: seq<T>, id: T -> string, target: string, f: T -> T)
    requires forall k :: 0 <= k < |s| ==> id(s[k]) != target
    ensures UpdateById(s, id, target, f) == s
  {
  }

  /** When the update keeps the id and applying it twice is applying it
      once, repeating the whole update is a no-op. */
  lemma UpdateByIdIdempotent<T>(s: seq<T>, id: T -> string, target: string, f: T -> T)
    requires forall k :: 0 <= k < |s| && id(s[k]) == target ==>
      id(f(s[k])) == target && f(f(s[k])) == f(s[k])
    ensures UpdateById(UpdateById(s, id, target, f), id, target, f) == UpdateById(s, id, target, f)
  {
    var r := UpdateById(s, id, target, f);
    var rr := UpdateById(r, id, target, f);
    forall k | 0 <= k < |s| ensures rr[k] == r[k] {
      if id(s[k]) == target {
        assert r[k] == f(s[k]);
      }
    }
  }

  /** An update that keeps ids touches nothing outside the target id: once
      the target is removed, the list is as if nothing had happened. */
  lemma {:induction false} UpdateThenRemove<T(!new)>(s: seq<T>, id: T -> string, target: string, f: T -> T)
    requires forall x :: x in s && id(x) == target ==> id(f(x)) == target
    ensures RemoveById(UpdateById(s, id, target, f), id, target) == RemoveById(s, id, target)
  {
    if s != [] {
      var r := UpdateById(s, id, target, f);
      var tail := UpdateById(s[1..], id, target, f);
      assert r == [r[0]] + tail;
      assert s == [s[0]] + s[1..];
      RemoveByIdKeepsOrder([r[0]], tail, id, target);
      RemoveByIdKeepsOrder([s[0]], s[1..], id, target);
      FilterOne(r[0], x => id(x) != target);
      FilterOne(s[0], x => id(x) != target);
      assert forall x :: x in s[1..] ==> x in s;
      UpdateThenRemove(s[1..], id, target, f);
    }
  }

  /** `{ ...d, isSettled: true }`. */
  function MarkSettled(d: Debt): (r: Debt)
    ensures r.isSettled
    ensures r.(isSettled := d.isSettled) == d
  {
    d.(isSettled := true)
  }

  /** The list update of `settleDebt`. */
  function SettleById(ds: seq<Debt>, target: string): (r: seq<Debt>)
    ensures |r| == |ds|
    ensures forall k :: 0 <= k < |ds| && ds[k].id != target ==> r[k] == ds[k]
    ensures forall k :: 0 <= k < |ds| && ds[k].id == target ==>
      r[k].isSettled && r[k].(isSettled := ds[k].isSettled) == ds[k]
  {
    UpdateById(ds, DebtId, target, MarkSettled)
  }

  /** Settling the same debt twice is settling it once. */
  lemma SettleIdempotent(ds: seq<Debt>, target: string)
    ensures SettleById(SettleById(ds, target), target) == SettleById(ds, target)
  {
    UpdateByIdIdempotent(ds, DebtId, target, MarkSettled);
  }

  /** Settling leaves every other debt where and as it was. */
  lemma SettleKeepsOthers(ds: seq<Debt>, target: string)
    ensures RemoveById(SettleById(ds, target), DebtId, target) == RemoveById(ds, DebtId, target)
  {
    UpdateThenRemove(ds, DebtId, target, MarkSettled);
  }

  /** After settling, no debt with that id is still open. */
  lemma SettleCloses(ds: seq<Debt>, target: string)
    ensures forall d :: d in SettleById(ds, target) && d.id == target ==> d.isSettled
  {
    var r := SettleById(ds, target);
    forall d | d in r && d.id == target ensures d.isSettled {
      var k :| 0 <= k < |r| && r[k] == d;
      assert ds[k].id == target;
    }
  }

  /** The list update of `updateEvent`. */
  function ReplaceById(es: seq<GroupEvent>, updated: GroupEvent): (r: seq<GroupEvent>)
    ensures |r| == |es|
    ensures forall k :: 0 <= k < |es| ==> r[k] == if es[k].id == updated.id then updated else es[k]
  {
    UpdateById(es, EventId, updated.id, _ => updated)
  }

  /** The updated event is in the list afterwards exactly when its id was. */
  lemma ReplaceByIdPresent(es: seq<GroupEvent>, updated: GroupEvent)
    ensures updated in ReplaceById(es, updated) <==> (updated in es || exists e :: e in es && e.id == updated.id)
  {
    var r := ReplaceById(es, updated);
    if updated in r {
      var k :| 0 <= k < |r| && r[k] == updated;
      assert es[k] in es;
    }
    if exists e :: e in es && e.id == updated.id {
      var e :| e in es && e.id == updated.id;
      var k :| 0 <= k < |es| && es[k] == e;
      assert r[k] == updated;
    }
    if updated in es {
      var k :| 0 <= k < |es| && es[k] == updated;
      assert r[k] == updated;
    }
  }

  /** Replacing an event whose id is absent changes nothing. */
  lemma ReplaceByIdAbsent(es: seq<GroupEvent>, updated: GroupEvent)
    requires forall e :: e in es ==> e.id != updated.id
    ensures ReplaceById(es, updated) == es
  {
    UpdateByIdAbsent(es, EventId, updated.id, _ => updated);
  }

  /** Replacing twice with the same event is replacing once. */
  lemma ReplaceByIdIdempotent(es: seq<GroupEvent>, updated: GroupEvent)
    ensures ReplaceById(ReplaceById(es, updated), updated) == ReplaceById(es, updated)
  {
    UpdateByIdIdempotent(es, EventId, updated.id, _ => updated);
  }

  /** The onboarding form's submit guard: a profile with the name as typed
      (not trimmed) and the chosen avatar, when the trimmed name is not
      empty. */
  function OnboardingSubmit(name: string, avatar: AvatarItem): (r: Option<UserProfile>)
    ensures r.Some? <==> exists k :: 0 <= k < |name| && !IsSpace(name[k])
    ensures r.Some? ==> r.value == UserProfile(name, avatar)
  {
    if Trim(name) != "" then Some(UserProfile(name, avatar)) else None
  }

  class AppState {
    var transactions: seq<Transaction>
    var debts: seq<Debt>
    var events: seq<GroupEvent>
    var userProfile: Option<UserProfile>
    var showQuickAdd: bool
    var showSettingsModal: bool

    /** The state as loaded from storage; loading itself is not modelled, so
        the loaded lists and profile are the arguments. */
    constructor (ts: seq<Transaction>, ds: seq<Debt>, es: seq<GroupEvent>, profile: Option<UserProfile>)
      ensures transactions == ts && debts == ds && events == es && userProfile == profile
      ensures !showQuickAdd && !showSettingsModal
    {
      transactions := ts;
      debts := ds;
      events := es;
      userProfile := profile;
      showQuickAdd := false;
      showSettingsModal := false;
    }

    /** `handleOnboardingComplete`. */
    method CompleteOnboarding(profile: UserProfile)
      modifies this
      ensures userProfile == Some(profile)
      ensures transactions == old(transactions) && debts == old(debts) && events == old(events)
      ensures showQuickAdd == old(showQuickAdd) && showSettingsModal == old(showSettingsModal)
    {
      userProfile := Some(profile);
    }

    /** `addTransaction`: the id and the date come from the clock, so they
        are arguments here. The quick-add sheet closes. */
    method AddTransaction(id: string, amount: real, kind: TransactionType, category: Category,
                          merchantName: string, date: int)
      modifies this
      ensures transactions == [Transaction(id, amount, kind, category, merchantName, date)] + old(transactions)
      ensures |transactions| == |old(transactions)| + 1
      ensures !showQuickAdd
      ensures debts == old(debts) && events == old(events) && userProfile == old(userProfile)
      ensures showSettingsModal == old(showSettingsModal)
    {
      transactions := [Transaction(id, amount, kind, category, merchantName, date)] + transactions;
      showQuickAdd := false;
    }

    method DeleteTransaction(id: string)
      modifies this
      ensures transactions == RemoveById(old(transactions), TransactionId, id)
      ensures forall t :: t in transactions <==> t in old(transactions) && t.id != id
      ensures debts == old(debts) && events == old(events) && userProfile == old(userProfile)
      ensures showQuickAdd == old(showQuickAdd) && showSettingsModal == old(showSettingsModal)
    {
      transactions := RemoveById(transactions, TransactionId, id);
    }

    method AddDebt(debt: Debt)
      modifies this
      ensures debts == [debt] + old(debts)
      ensures transactions == old(transactions) && events == old(events) && userProfile == old(userProfile)
      ensures showQuickAdd == old(showQuickAdd) && showSettingsModal == old(showSettingsModal)
    {
      debts := [debt] + debts;
    }

    method SettleDebt(id: string)
      modifies this
      ensures debts == SettleById(old(debts), id)
      ensures forall d :: d in debts && d.id == id ==> d.isSettled
      ensures transactions == old(transactions) && events == old(events) && userProfile == old(userProfile)
      ensures showQuickAdd == old(showQuickAdd) && showSettingsModal == old(showSettingsModal)
    {
      SettleCloses(debts, id);
      debts := SettleById(debts, id);
    }

    method DeleteDebt(id: string)
      modifies this
      ensures debts == RemoveById(old(debts), DebtId, id)
      ensures forall d :: d in debts <==> d in old(debts) && d.id != id
      ensures transactions == old(transactions) && events == old(events) && userProfile == old(userProfile)
      ensures showQuickAdd == old(showQuickAdd) && showSettingsModal == old(showSettingsModal)
    {
      debts := RemoveById(debts, DebtId, id);
    }

    method AddEvent(event: GroupEvent)
      modifies this
      ensures events == [event] + old(events)
      ensures transactions == old(transactions) && debts == old(debts) && userProfile == old(userProfile)
      ensures showQuickAdd == old(showQuickAdd) && showSettingsModal == old(showSettingsModal)
    {
      events := [event] + events;
    }

    method UpdateEvent(updated: GroupEvent)
      modifies this
      ensures events == ReplaceById(old(events), updated)
      ensures transactions == old(transactions) && debts == old(debts) && userProfile == old(userProfile)
      ensures showQuickAdd == old(showQuickAdd) && showSettingsModal == old(showSettingsModal)
    {
      events := ReplaceById(events, updated);
    }

    method DeleteEvent(id: string)
      modifies this
      ensures events == RemoveById(old(events), EventId, id)
      ensures forall e :: e in events <==> e in old(events) && e.id != id
      ensures transactions == old(transactions) && debts == old(debts) && userProfile == old(userProfile)
      ensures showQuickAdd == old(showQuickAdd) && showSettingsModal == old(showSettingsModal)
    {
      events := RemoveById(events, EventId, id);
    }

    /** `handleResetApp`; `confirmed` is the answer to the confirmation
        dialog. */
    method ResetApp(confirmed: bool)
      modifies this
      ensures confirmed ==> transactions == [] && debts == [] && events == []
      ensures confirmed ==> userProfile == None && !showSettingsModal
      ensures !confirmed ==> transactions == old(transactions) && debts == old(debts)
      ensures !confirmed ==> events == old(events) && userProfile == old(userProfile)
      ensures !confirmed ==> showSettingsModal == old(showSettingsModal)
      ensures showQuickAdd == old(showQuickAdd)
    {
      if confirmed {
        transactions := [];
        debts := [];
        events := [];
        userProfile := None;
        showSettingsModal := false;
      }
    }

    method UpdateAvatar(avatar: AvatarItem)
      modifies this
      ensures old(userProfile).None? ==> userProfile == None
      ensures old(userProfile).Some? ==>
        userProfile == Some(UserProfile(old(userProfile).value.name, avatar))
      ensures transactions == old(transactions) && debts == old(debts) && events == old(events)
      ensures showQuickAdd == old(showQuickAdd) && showSettingsModal == old(showSettingsModal)
    {
      if userProfile.Some? {
        userProfile := Some(userProfile.value.(avatar := avatar));
      }
    }
  }
}
