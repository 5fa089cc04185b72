/**
 The visibility flags of the groups table (adapters/persistence/sqlite/groups.py) and the
 writers that share them: the liveness sweep and startup heal of core/runtime/lifecycle.py,
 the account-online callbacks, group scans, and the user's remove and restore requests.
 */
module GroupVisibility {
  datatype Group = Group(account: string, managed: bool, removed: bool)
  datatype Item = Item(gid: string, account: string)

  type Table = map<string, Group>

  // ---------- The statements ----------

  /** `mark_account_groups_managed(account, 0)`: removed rows are unmanaged too. */
  function Hide(t: Table, account: string): Table {
    map g | g in t :: if account != "" && t[g].account == account then t[g].(managed := false) else t[g]
  }

  /** `mark_account_groups_managed(account, 1)`: the guard spares rows the user removed. */
  function Show(t: Table, account: string): Table {
    map g | g in t ::
      if account != "" && t[g].account == account && !t[g].removed then t[g].(managed := true) else t[g]
  }

  function SetManaged(t: Table, ids: set<string>, managed: bool): Table {
    map g | g in t :: if g in ids then t[g].(managed := managed) else t[g]
  }

  function MarkRemoved(t: Table, ids: set<string>, removed: bool): Table {
    map g | g in t :: if g in ids then t[g].(removed := removed) else t[g]
  }

  /** The startup heal. */
  function RestoreAll(t: Table): Table {
    map g | g in t :: if t[g].removed then t[g] else t[g].(managed := true)
  }

  /**
   One row of `upsert_groups`. A new row takes the column defaults; a known one keeps both
   flags, and an empty incoming account keeps the stored one.
   */
  function UpsertOne(t: Table, item: Item): Table {
    if item.gid == "" then t
    else if item.gid in t then
      t[item.gid := t[item.gid].(account := if item.account == "" then t[item.gid].account else item.account)]
    else t[item.gid := Group(item.account, true, false)]
  }

  function UpsertGroups(t: Table, items: seq<Item>): Table {
    if items == [] then t else UpsertOne(UpsertGroups(t, items[..|items| - 1]), items[|items| - 1])
  }

  /** The account a row ends with: the last non-empty one its items carry. */
  function LastAccount(items: seq<Item>, gid: string, stored: string): string {
    if items == [] then stored
    else
      var item := items[|items| - 1];
      if item.gid == gid != "" && item.account != "" then item.account
      else LastAccount(items[..|items| - 1], gid, stored)
  }

  predicate HasManaged(t: Table, account: string) {
    account != "" && exists g :: g in t && t[g].account == account && t[g].managed
  }

  // ---------- Runs ----------

  /**
   Where the sweep stands: an update of the table and the note of it in `_hidden_accounts`
   are separate steps, and other writers run between them.
   */
  datatype Task = Idle | Hiding(account: string) | Restoring(account: string)

  datatype State = State(groups: Table, hidden: set<string>, task: Task)

  datatype Event =
    | HideWrite(account: string)
    | RestoreWrite(account: string)
    | Note
    | AccountOnline(account: string)
    | ScanUnlists(ids: set<string>)
    | ScanUpserts(items: seq<Item>)
    | UserRemoves(ids: set<string>)
    | UserRestores(ids: set<string>)
    | Restart

  const Fresh := State(map[], {}, Idle)

  predicate Enabled(s: State, e: Event) {
    match e
    case HideWrite(_) => s.task == Idle
    case RestoreWrite(a) => s.task == Idle && a in s.hidden
    case Note => s.task != Idle
    case _ => true
  }

  function Apply(s: State, e: Event): State
    requires Enabled(s, e)
  {
    match e
    case HideWrite(a) =>
      State(Hide(s.groups, a), s.hidden, if HasManaged(s.groups, a) then Hiding(a) else Idle)
    case RestoreWrite(a) => State(Show(s.groups, a), s.hidden, Restoring(a))
    case Note =>
      State(s.groups, if s.task.Hiding? then s.hidden + {s.task.account} else s.hidden - {s.task.account}, Idle)
    case AccountOnline(a) => s.(groups := Show(s.groups, a))
    case ScanUnlists(ids) => s.(groups := SetManaged(s.groups, ids, false))
    case ScanUpserts(items) => s.(groups := UpsertGroups(s.groups, items))
    case UserRemoves(ids) => s.(groups := MarkRemoved(SetManaged(s.groups, ids, false), ids, true))
    case UserRestores(ids) => s.(groups := SetManaged(MarkRemoved(s.groups, ids, false), ids, true))
    case Restart => State(RestoreAll(s.groups), {}, Idle)
  }

  predicate CanRun(s: State, events: seq<Event>)
    decreases |events|
  {
    events == [] || (Enabled(s, events[0]) && CanRun(Apply(s, events[0]), events[1..]))
  }

  function Run(s: State, events: seq<Event>): State
    requires CanRun(s, events)
    decreases |events|
  {
    if events == [] then s else Run(Apply(s, events[0]), events[1..])
  }

  /** The accounts the sweep will restore when it next sees them alive. */
  function Covered(s: State): set<string> {
    match s.task
    case Idle => s.hidden
    case Hiding(a) => s.hidden + {a}
    case Restoring(a) => s.hidden - {a}
  }

  predicate RemovedIsHidden(t: Table) {
    forall g | g in t && t[g].removed :: !t[g].managed
  }

  predicate HiddenIsCovered(t: Table, covered: set<string>) {
    forall g | g in t && !t[g].removed && !t[g].managed :: t[g].account in covered
  }

  predicate Sound(s: State) {
    RemovedIsHidden(s.groups) && HiddenIsCovered(s.groups, Covered(s)) && "" !in s.hidden && s.task != Hiding("")
  }

  /**
   A scan that finds a group gone from its account's listing unmanages it without telling
   the sweep, and a scan by another account rebinds a group the sweep has hidden.
   */
  predicate Harmless(s: State, e: Event) {
    match e
    case ScanUnlists(ids) =>
      forall g | g in ids && g in s.groups && !s.groups[g].removed :: s.groups[g].account in Covered(s)
    case ScanUpserts(items) =>
      forall g | g in s.groups && !s.groups[g].removed && !s.groups[g].managed ::
        LastAccount(items, g, s.groups[g].account) in Covered(s)
    case _ => true
  }

  predicate KeepsBindings(t: Table, items: seq<Item>) {
    forall g | g in t :: LastAccount(items, g, t[g].account) == t[g].account
  }

  predicate ListsGroup(items: seq<Item>, g: string) {
    g != "" && exists k :: 0 <= k < |items| && items[k].gid == g
  }

  lemma ListsOneMore(items: seq<Item>, g: string)
    requires items != []
    ensures ListsGroup(items, g) <==> ListsGroup(items[..|items| - 1], g) || (g != "" && items[|items| - 1].gid == g)
  {
    if k :| 0 <= k < |items| - 1 && items[k].gid == g {
      assert items[..|items| - 1][k].gid == g;
    }
  }

  lemma {:induction false} UnlistedHasNoAccount(items: seq<Item>, g: string, stored: string)
    requires !ListsGroup(items, g)
    ensures LastAccount(items, g, stored) == stored
  {
    if items != [] {
      ListsOneMore(items, g);
      UnlistedHasNoAccount(items[..|items| - 1], g, stored);
    }
  }

  /**
   Upserts touch neither flag of a row that exists and leave it with its last account; every
   unknown group that is listed gets a row, visible, with the last account it was listed under.
   */
  lemma {:induction false} UpsertGroupsRow(t: Table, items: seq<Item>, g: string)
    ensures var u := UpsertGroups(t, items);
      && (g in u <==> g in t || ListsGroup(items, g))
      && (g in t ==> u[g] == t[g].(account := LastAccount(items, g, t[g].account)))
      && (g !in t && g in u ==> u[g] == Group(LastAccount(items, g, ""), true, false))
    decreases |items|
  {
    hide ListsGroup;
    if items != [] {
      UpsertGroupsRow(t, items[..|items| - 1], g);
      ListsOneMore(items, g);
      if !ListsGroup(items[..|items| - 1], g) {
        UnlistedHasNoAccount(items[..|items| - 1], g, "");
      }
    } else {
      NobodyListed(g);
    }
  }

  lemma NobodyListed(g: string)
    ensures !ListsGroup([], g)
  {
  }

  /** A step from a sound state leads to a sound state exactly when it is harmless. */
  lemma StepKeepsSoundIff(s: State, e: Event)
    requires Sound(s) && Enabled(s, e)
    ensures Sound(Apply(s, e)) <==> Harmless(s, e)
  {
    match e
    case ScanUpserts(items) =>
      forall g ensures var u := UpsertGroups(s.groups, items);
          && (g in s.groups ==> g in u && u[g] == s.groups[g].(account := LastAccount(items, g, s.groups[g].account)))
          && (g !in s.groups && g in u ==> u[g].managed && !u[g].removed)
      {
        UpsertGroupsRow(s.groups, items, g);
      }
      UpsertIsSoundIff(s, UpsertGroups(s.groups, items), items);
    case ScanUnlists(ids) => UnlistIsSoundIff(s, ids);
    case _ => OtherStepsAreSound(s, e);
  }

  lemma UpsertIsSoundIff(s: State, u: Table, items: seq<Item>)
    requires Sound(s)
    requires forall g | g in s.groups ::
      g in u && u[g] == s.groups[g].(account := LastAccount(items, g, s.groups[g].account))
    requires forall g | g !in s.groups && g in u :: u[g].managed && !u[g].removed
    ensures Sound(s.(groups := u)) <==> Harmless(s, ScanUpserts(items))
  {
    if Harmless(s, ScanUpserts(items)) {
      assert HiddenIsCovered(u, Covered(s));
    } else {
      var g :| g in s.groups && !s.groups[g].removed && !s.groups[g].managed
        && LastAccount(items, g, s.groups[g].account) !in Covered(s);
      assert g in u && !u[g].removed && !u[g].managed && u[g].account !in Covered(s);
    }
  }

  lemma UnlistIsSoundIff(s: State, ids: set<string>)
    requires Sound(s)
    ensures Sound(Apply(s, ScanUnlists(ids))) <==> Harmless(s, ScanUnlists(ids))
  {
    var u := SetManaged(s.groups, ids, false);
    if !Harmless(s, ScanUnlists(ids)) {
      var g :| g in ids && g in s.groups && !s.groups[g].removed && s.groups[g].account !in Covered(s);
      assert g in u && !u[g].removed && !u[g].managed && u[g].account !in Covered(s);
    }
  }

  lemma OtherStepsAreSound(s: State, e: Event)
    requires Sound(s) && Enabled(s, e) && !e.ScanUpserts? && !e.ScanUnlists?
    ensures Sound(Apply(s, e))
  {
    var u := Apply(s, e);
    forall g | g in u.groups && !u.groups[g].removed && !u.groups[g].managed
      ensures u.groups[g].account in Covered(u)
    {
      assert g in s.groups;
    }
    assert forall g | g in u.groups :: g in s.groups;
  }

  ghost predicate HarmlessRun(s: State, events: seq<Event>)
    requires CanRun(s, events)
    decreases |events|
  {
    events == [] || (Harmless(s, events[0]) && HarmlessRun(Apply(s, events[0]), events[1..]))
  }

  /**
   In every run from an empty table, restarts included, a hidden group the user did not
   remove belongs to an account the sweep will restore, and a removed group is hidden.
   */
  lemma {:induction false} EveryRunIsSound(s: State, events: seq<Event>)
    requires Sound(s) && CanRun(s, events) && HarmlessRun(s, events)
    ensures Sound(Run(s, events))
    decreases |events|
  {
    if events != [] {
      StepKeepsSoundIff(s, events[0]);
      EveryRunIsSound(Apply(s, events[0]), events[1..]);
    }
  }

  ghost predicate BindingsFixed(s: State, events: seq<Event>)
    requires CanRun(s, events)
    decreases |events|
  {
    events == [] ||
    (&& !events[0].ScanUnlists?
     && (events[0].ScanUpserts? ==> KeepsBindings(s.groups, events[0].items))
     && BindingsFixed(Apply(s, events[0]), events[1..]))
  }

  /** With bindings fixed and no scan unlisting a group, no hypothesis on the state is left. */
  lemma {:induction false} FixedBindingsAreHarmless(s: State, events: seq<Event>)
    requires Sound(s) && CanRun(s, events) && BindingsFixed(s, events)
    ensures HarmlessRun(s, events)
    decreases |events|
  {
    if events != [] {
      assert Harmless(s, events[0]);
      StepKeepsSoundIff(s, events[0]);
      FixedBindingsAreHarmless(Apply(s, events[0]), events[1..]);
    }
  }

  predicate UserRemoved(t: Table, g: string) {
    g in t && t[g].removed && !t[g].managed
  }

  /**
   A group the user removed stays removed and hidden through every sweep, heal, scan and
   callback, whatever they bind or unlist, until the user restores that group.
   */
  lemma {:induction false} UserRemovedStaysHidden(s: State, events: seq<Event>, g: string)
    requires CanRun(s, events) && UserRemoved(s.groups, g)
    requires forall e | e in events && e.UserRestores? :: g !in e.ids
    ensures UserRemoved(Run(s, events).groups, g)
    decreases |events|
  {
    if events != [] {
      var e := events[0];
      if e.ScanUpserts? {
        UpsertGroupsRow(s.groups, e.items, g);
      }
      assert UserRemoved(Apply(s, e).groups, g);
      forall f | f in events[1..] && f.UserRestores? ensures g !in f.ids {
        assert f in events;
      }
      UserRemovedStaysHidden(Apply(s, e), events[1..], g);
    }
  }

  /**
   From a sound state, the first sweep that sees a covered account alive shows all of its
   groups the user did not remove, and touches no other group.
   */
  lemma AliveAccountIsRestored(s: State, a: string)
    requires Sound(s) && s.task == Idle
    ensures var u := if a in s.hidden then Run(s, [RestoreWrite(a), Note]) else s;
      && Sound(u) && u.task == Idle && a !in u.hidden
      && forall g :: g in u.groups <==> g in s.groups
    ensures var u := if a in s.hidden then Run(s, [RestoreWrite(a), Note]) else s;
      forall g | g in u.groups ::
        && (s.groups[g].account == a && !s.groups[g].removed ==> u.groups[g].managed)
        && (s.groups[g].account != a || s.groups[g].removed ==> u.groups[g] == s.groups[g])
  {
    if a in s.hidden {
      StepKeepsSoundIff(s, RestoreWrite(a));
      var m := Apply(s, RestoreWrite(a));
      StepKeepsSoundIff(m, Note);
      assert [RestoreWrite(a), Note][1..] == [Note];
      assert CanRun(m, [Note]) && Run(m, [Note]) == Run(Apply(m, Note), [Note][1..]) == Apply(m, Note);
    }
  }

  // ---------- Which steps show a group, and which hide it ----------

  predicate Shows(s: State, e: Event, g: string) {
    g in s.groups &&
    match e
    case RestoreWrite(a) => a == s.groups[g].account != "" && !s.groups[g].removed
    case AccountOnline(a) => a == s.groups[g].account != "" && !s.groups[g].removed
    case Restart => !s.groups[g].removed
    case UserRestores(ids) => g in ids
    case _ => false
  }

  predicate Hides(s: State, e: Event, g: string) {
    g in s.groups &&
    match e
    case HideWrite(a) => a == s.groups[g].account != ""
    case ScanUnlists(ids) => g in ids
    case UserRemoves(ids) => g in ids
    case _ => false
  }

  lemma StepShowsOrHides(s: State, e: Event, g: string)
    requires Enabled(s, e) && g in s.groups
    ensures var u := Apply(s, e).groups;
      g in u && u[g].managed == (Shows(s, e, g) || (s.groups[g].managed && !Hides(s, e, g)))
  {
    if e.ScanUpserts? {
      UpsertGroupsRow(s.groups, e.items, g);
    }
  }

  function StateAt(s: State, events: seq<Event>, k: nat): State
    requires CanRun(s, events) && k <= |events|
    decreases k
  {
    if k == 0 then s else StateAt(Apply(s, events[0]), events[1..], k - 1)
  }

  ghost predicate HiddenFrom(s: State, events: seq<Event>, g: string, k: nat)
    requires CanRun(s, events)
  {
    exists n :: k <= n < |events| && Hides(StateAt(s, events, n), events[n], g)
  }

  /** Some step shows the group and no later one hides it. */
  ghost predicate LeftShown(s: State, events: seq<Event>, g: string)
    requires CanRun(s, events)
  {
    exists k :: 0 <= k < |events| && Shows(StateAt(s, events, k), events[k], g) && !HiddenFrom(s, events, g, k + 1)
  }

  lemma HiddenFromNext(s: State, events: seq<Event>, g: string, k: nat)
    requires events != [] && CanRun(s, events)
    ensures HiddenFrom(s, events, g, k + 1) <==> HiddenFrom(Apply(s, events[0]), events[1..], g, k)
    ensures HiddenFrom(s, events, g, 0) <==> Hides(s, events[0], g) || HiddenFrom(s, events, g, 1)
  {
    var t, rest := Apply(s, events[0]), events[1..];
    if HiddenFrom(s, events, g, k + 1) {
      var n :| k + 1 <= n < |events| && Hides(StateAt(s, events, n), events[n], g);
      assert Hides(StateAt(t, rest, n - 1), rest[n - 1], g);
    }
    if HiddenFrom(t, rest, g, k) {
      var n :| k <= n < |rest| && Hides(StateAt(t, rest, n), rest[n], g);
      assert Hides(StateAt(s, events, n + 1), events[n + 1], g);
    }
    if Hides(s, events[0], g) {
      assert Hides(StateAt(s, events, 0), events[0], g);
    }
    if HiddenFrom(s, events, g, 0) && !HiddenFrom(s, events, g, 1) {
      var n :| 0 <= n < |events| && Hides(StateAt(s, events, n), events[n], g);
      assert n == 0;
    }
  }

  lemma LeftShownNext(s: State, events: seq<Event>, g: string)
    requires events != [] && CanRun(s, events)
    ensures LeftShown(s, events, g) <==>
            || LeftShown(Apply(s, events[0]), events[1..], g)
            || (Shows(s, events[0], g) && !HiddenFrom(Apply(s, events[0]), events[1..], g, 0))
  {
    var t, rest := Apply(s, events[0]), events[1..];
    HiddenFromNext(s, events, g, 0);
    if LeftShown(s, events, g) {
      var k :| 0 <= k < |events| && Shows(StateAt(s, events, k), events[k], g) && !HiddenFrom(s, events, g, k + 1);
      if k > 0 {
        HiddenFromNext(s, events, g, k);
        assert Shows(StateAt(t, rest, k - 1), rest[k - 1], g) && !HiddenFrom(t, rest, g, k - 1 + 1);
      }
    }
    if LeftShown(t, rest, g) {
      var k :| 0 <= k < |rest| && Shows(StateAt(t, rest, k), rest[k], g) && !HiddenFrom(t, rest, g, k + 1);
      HiddenFromNext(s, events, g, k + 1);
      assert Shows(StateAt(s, events, k + 1), events[k + 1], g) && !HiddenFrom(s, events, g, k + 1 + 1);
    }
    if Shows(s, events[0], g) && !HiddenFrom(t, rest, g, 0) {
      assert Shows(StateAt(s, events, 0), events[0], g) && !HiddenFrom(s, events, g, 0 + 1);
    }
  }

  /**
   After any run a group is in view exactly if the last step that concerns it shows it, or
   it was in view and no step concerns it.
   */
  lemma {:induction false} ShownAfterRunIff(s: State, events: seq<Event>, g: string)
    requires CanRun(s, events) && g in s.groups
    ensures g in Run(s, events).groups
    ensures Run(s, events).groups[g].managed <==>
            LeftShown(s, events, g) || (s.groups[g].managed && !HiddenFrom(s, events, g, 0))
    decreases |events|
  {
    if events != [] {
      hide Apply, Enabled, Shows, Hides;
      StepShowsOrHides(s, events[0], g);
      ShownAfterRunIff(Apply(s, events[0]), events[1..], g);
      LeftShownNext(s, events, g);
      HiddenFromNext(s, events, g, 0);
    }
  }

  /**
   A removal is two calls, `set_groups_managed(ids, 0)` and `mark_groups_removed(ids, 1)`.
   Whatever runs between them, it hides a group exactly if no step between them shows that
   group without a later one hiding it again.
   */
  lemma SplitRemovalHidesIff(s: State, ids: set<string>, events: seq<Event>, g: string)
    requires g in ids && g in s.groups
    requires CanRun(s.(groups := SetManaged(s.groups, ids, false)), events)
    ensures var first := s.(groups := SetManaged(s.groups, ids, false));
      var done := MarkRemoved(Run(first, events).groups, ids, true);
      && g in done && done[g].removed && (!done[g].managed <==> !LeftShown(first, events, g))
  {
    ShownAfterRunIff(s.(groups := SetManaged(s.groups, ids, false)), events, g);
  }

  /** The shortest run that spoils a removal: the sweep restores the account in between. */
  lemma SplitRemovalStaysVisible(t: Table, g: string)
    requires g in t && t[g].account != "" && !t[g].removed
    ensures var split := MarkRemoved(Show(SetManaged(t, {g}, false), t[g].account), {g}, true);
      split[g].removed && split[g].managed
  {
  }

  // ---------- Groups hidden outside the sweep's books ----------

  predicate OffTheBooks(s: State, g: string) {
    g in s.groups && !s.groups[g].managed && !s.groups[g].removed
    && s.groups[g].account !in s.hidden && s.task != Hiding(s.groups[g].account)
  }

  /**
   Neither a restart, nor its account coming online anew, nor the user, nor a rebinding, nor
   a sweep that misses the account and so puts it on the books.
   */
  predicate LeavesAlone(s: State, e: Event, g: string) {
    g in s.groups &&
    var a := s.groups[g].account;
    match e
    case Restart => false
    case AccountOnline(b) => b != a
    case HideWrite(b) => b != a
    case UserRestores(ids) => g !in ids
    case UserRemoves(ids) => g !in ids
    case ScanUpserts(items) => LastAccount(items, g, a) == a
    case _ => true
  }

  /**
   A scan that no longer finds a group in its account's listing takes it off the books: no
   number of sweeps that see the account alive brings it back.
   */
  lemma {:induction false} UnlistedGroupStaysHidden(s: State, events: seq<Event>, g: string)
    requires CanRun(s, events) && OffTheBooks(s, g)
    requires forall k | 0 <= k < |events| :: LeavesAlone(StateAt(s, events, k), events[k], g)
    ensures OffTheBooks(Run(s, events), g)
    decreases |events|
  {
    if events != [] {
      var e, t := events[0], Apply(s, events[0]);
      assert LeavesAlone(StateAt(s, events, 0), events[0], g);
      if e.ScanUpserts? {
        UpsertGroupsRow(s.groups, e.items, g);
      }
      assert OffTheBooks(t, g);
      forall k | 0 <= k < |events[1..]| ensures LeavesAlone(StateAt(t, events[1..], k), events[1..][k], g) {
        assert StateAt(s, events, k + 1) == StateAt(t, events[1..], k) && events[1..][k] == events[k + 1];
      }
      UnlistedGroupStaysHidden(t, events[1..], g);
    }
  }

  /** And that is where such a scan leaves a managed group of an account that is not hidden. */
  lemma ScanTakesOffTheBooks(s: State, ids: set<string>, g: string)
    requires g in ids && g in s.groups && !s.groups[g].removed && s.groups[g].account !in s.hidden
    requires s.task != Hiding(s.groups[g].account)
    ensures OffTheBooks(Apply(s, ScanUnlists(ids)), g)
  {
  }

  // ---------- The sweep ----------

  function MissesOf(misses: map<string, nat>, a: string): nat {
    if a in misses then misses[a] else 0
  }

  const MAX_MISSES := 3

  /** What one sweep owes a group, given which accounts it saw go stale and which answered. */
  function SweptGroup(row: Group, misses: map<string, nat>, stale: set<string>, alive: set<string>): Group {
    if row.removed || row.account == "" then row
    else if row.account in alive then row.(managed := true)
    else if row.account in stale || MissesOf(misses, row.account) + 1 >= MAX_MISSES then row.(managed := false)
    else row
  }

  function SweptTable(t: Table, misses: map<string, nat>, stale: set<string>, alive: set<string>): Table {
    map g | g in t :: SweptGroup(t[g], misses, stale, alive)
  }

  /** The counter of an account after a sweep, absent when the sweep dropped it. */
  function SweptMisses(t: Table, misses: map<string, nat>, stale: set<string>, alive: set<string>, a: string): nat {
    if a in alive then
      if exists g :: g in t && t[g].account == a && a != "" && !t[g].removed then 0 else MissesOf(misses, a)
    else if a in stale || !HasManaged(t, a) then MissesOf(misses, a)
    else if MissesOf(misses, a) + 1 >= MAX_MISSES then 0
    else MissesOf(misses, a) + 1
  }

  function ToSet(accounts: seq<string>): set<string> {
    set a | a in accounts
  }

  function HideAll(t: Table, accounts: set<string>): Table {
    map g | g in t ::
      if t[g].account != "" && t[g].account in accounts then t[g].(managed := false) else t[g]
  }

  function ShowAll(t: Table, accounts: set<string>): Table {
    map g | g in t ::
      if t[g].account != "" && t[g].account in accounts && !t[g].removed then t[g].(managed := true) else t[g]
  }

  lemma ToSetAdds(accounts: seq<string>)
    ensures ToSet(accounts[..0]) == {}
    ensures forall i | 0 <= i < |accounts| :: ToSet(accounts[..i + 1]) == ToSet(accounts[..i]) + {accounts[i]}
  {
    forall i | 0 <= i < |accounts| ensures ToSet(accounts[..i + 1]) == ToSet(accounts[..i]) + {accounts[i]} {
      assert accounts[..i + 1] == accounts[..i] + [accounts[i]];
    }
  }

  lemma NothingHidden(t: Table)
    ensures HideAll(t, {}) == t && Noted(t, {}) == {}
  {
  }

  /** The accounts among these that have a group to hide. */
  function Noted(t: Table, accounts: set<string>): set<string> {
    set a | a in accounts && HasManaged(t, a)
  }

  lemma ManagedAfterHide(t: Table, done: set<string>, a: string)
    ensures HasManaged(HideAll(t, done), a) <==> HasManaged(t, a) && a !in done
  {
    if HasManaged(t, a) && a !in done {
      var g :| g in t && t[g].account == a && t[g].managed;
      assert HideAll(t, done)[g] == t[g];
    }
    if HasManaged(HideAll(t, done), a) {
      var g :| g in t && HideAll(t, done)[g].account == a && HideAll(t, done)[g].managed;
      assert t[g].account == a && t[g].managed;
    }
  }

  lemma NotedAdds(t: Table, done: set<string>, a: string)
    ensures Noted(t, done + {a}) ==
            Noted(t, done) + if HasManaged(HideAll(t, done), a) then {a} else {}
  {
    hide HideAll, HasManaged;
    ManagedAfterHide(t, done, a);
  }

  /** After the three phases exactly these accounts are on the sweep's books. */
  function SweptHidden(
    t: Table, hidden: set<string>, misses: map<string, nat>, stale: set<string>, alive: set<string>): set<string>
  {
    (hidden + Noted(t, stale) + set g | g in t && HasManaged(t, t[g].account)
                                     && MissesOf(misses, t[g].account) + 1 >= MAX_MISSES :: t[g].account) - alive
  }

  lemma PhasesGiveSweptHidden(
    t: Table, hidden: set<string>, misses: map<string, nat>, stale: set<string>, alive: set<string>)
    requires RemovedIsHidden(t)
    ensures var shown := ShowAll(HideAll(t, stale), alive);
      (hidden + Noted(t, stale)) - alive + MissedOut(shown, misses, alive)
      == SweptHidden(t, hidden, misses, stale, alive)
  {
    var u := HideAll(t, stale);
    var shown := ShowAll(u, alive);
    forall a ensures a in MissedOut(shown, misses, alive) <==>
        a !in alive && a !in stale && HasManaged(t, a) && MissesOf(misses, a) + 1 >= MAX_MISSES
    {
      ManagedAfterHide(t, stale, a);
      MissedOutIs(shown, misses, alive, a);
      if a !in alive {
        ManagedAfterShow(u, alive, a);
      }
    }
    forall a | HasManaged(t, a) ensures exists g :: g in t && t[g].account == a {
    }
  }

  lemma MissedOutIs(t: Table, misses: map<string, nat>, alive: set<string>, a: string)
    ensures a in MissedOut(t, misses, alive) <==>
            HasManaged(t, a) && a !in alive && MissesOf(misses, a) + 1 >= MAX_MISSES
  {
  }

  lemma ManagedAfterShow(t: Table, alive: set<string>, a: string)
    requires a !in alive
    ensures HasManaged(ShowAll(t, alive), a) <==> HasManaged(t, a)
  {
    if HasManaged(t, a) {
      var g :| g in t && t[g].account == a && t[g].managed;
      assert ShowAll(t, alive)[g] == t[g];
    }
    if HasManaged(ShowAll(t, alive), a) {
      var g :| g in t && ShowAll(t, alive)[g].account == a && ShowAll(t, alive)[g].managed;
      assert t[g].account == a && t[g].managed;
    }
  }

  lemma HideAllAdds(t: Table, accounts: set<string>, a: string)
    ensures HideAll(t, accounts + {a}) == Hide(HideAll(t, accounts), a)
  {
  }

  lemma ShowAllAdds(t: Table, accounts: set<string>, a: string)
    ensures ShowAll(t, accounts + {a}) == Show(ShowAll(t, accounts), a)
  {
  }

  function MissedOut(t: Table, misses: map<string, nat>, alive: set<string>): set<string> {
    set g | g in t && t[g].managed && t[g].account != "" && t[g].account !in alive
            && MissesOf(misses, t[g].account) + 1 >= MAX_MISSES :: t[g].account
  }

  function CountedMisses(t: Table, misses: map<string, nat>, alive: set<string>, a: string): nat {
    if !HasManaged(t, a) then MissesOf(misses, a)
    else if a in alive || MissesOf(misses, a) + 1 >= MAX_MISSES then 0
    else MissesOf(misses, a) + 1
  }

  /** The three phases of a sweep, composed, give each group what the sweep owes it. */
  lemma PhasesGiveSweptTable(t: Table, misses: map<string, nat>, stale: set<string>, alive: set<string>)
    requires RemovedIsHidden(t)
    ensures var shown := ShowAll(HideAll(t, stale), alive);
      HideAll(shown, MissedOut(shown, misses, alive)) == SweptTable(t, misses, stale, alive)
  {
    var shown := ShowAll(HideAll(t, stale), alive);
    var out := MissedOut(shown, misses, alive);
    forall g | g in t
      ensures HideAll(shown, out)[g] == SweptGroup(t[g], misses, stale, alive)
    {
      if shown[g].managed && shown[g].account != "" && shown[g].account !in alive
         && MissesOf(misses, shown[g].account) + 1 >= MAX_MISSES {
        assert shown[g].account in out;
      }
    }
  }

  lemma PhasesGiveSweptMisses(t: Table, misses: map<string, nat>, stale: set<string>, alive: set<string>, a: string)
    requires RemovedIsHidden(t)
    ensures CountedMisses(ShowAll(HideAll(t, stale), alive), misses, alive, a)
         == SweptMisses(t, misses, stale, alive, a)
  {
    var shown := ShowAll(HideAll(t, stale), alive);
    if HasManaged(t, a) && a !in stale && a !in alive {
      var g :| g in t && t[g].account == a && t[g].managed;
      assert shown[g] == t[g];
    }
    if HasManaged(shown, a) {
      var g :| g in shown && shown[g].account == a && shown[g].managed;
      assert g in t && t[g].account == a;
    } else if a in alive {
      forall g | g in t && t[g].account == a && a != "" ensures t[g].removed {
        assert shown[g].account == a;
      }
    }
  }

  lemma SilentSweep(t: Table, misses: map<string, nat>, stale: set<string>, alive: set<string>, a: string)
    requires a != "" && a !in alive && RemovedIsHidden(t)
    ensures var u := SweptTable(t, misses, stale, alive);
      && RemovedIsHidden(u)
      && (HasManaged(u, a) ==>
            && HasManaged(t, a) && MissesOf(misses, a) + 1 < MAX_MISSES
            && SweptMisses(t, misses, stale, alive, a) == MissesOf(misses, a) + 1)
      && (a !in stale && MissesOf(misses, a) + 1 < MAX_MISSES ==>
            forall g | g in t && t[g].account == a :: g in u && u[g] == t[g])
      && SweptMisses(t, misses, stale, alive, a) <= MissesOf(misses, a) + 1
  {
    var u := SweptTable(t, misses, stale, alive);
    if HasManaged(u, a) {
      var g :| g in u && u[g].account == a && u[g].managed;
      assert g in t && t[g].account == a && t[g].managed;
    }
    assert forall g | g in u && u[g].removed :: u[g] == t[g];
  }

  /**
   An account no sweep hears from has no group left in view after three of them, and one
   that was never reported stale keeps its groups through the first two.
   */
  lemma ThreeSilentSweepsHide(
    t: Table, m0: map<string, nat>, m1: map<string, nat>, m2: map<string, nat>,
    stale: seq<set<string>>, alive: seq<set<string>>, a: string)
    requires a != "" && RemovedIsHidden(t)
    requires |stale| == 3 && |alive| == 3 && forall i | 0 <= i < 3 :: a !in alive[i]
    requires MissesOf(m1, a) == SweptMisses(t, m0, stale[0], alive[0], a)
    requires MissesOf(m2, a) == SweptMisses(SweptTable(t, m0, stale[0], alive[0]), m1, stale[1], alive[1], a)
    ensures var t1 := SweptTable(t, m0, stale[0], alive[0]);
      var t2 := SweptTable(t1, m1, stale[1], alive[1]);
      var t3 := SweptTable(t2, m2, stale[2], alive[2]);
      && !HasManaged(t3, a)
      && (MissesOf(m0, a) == 0 && a !in stale[0] && a !in stale[1] ==>
            forall g | g in t && t[g].account == a :: t2[g] == t[g])
  {
    hide SweptTable, SweptMisses, RemovedIsHidden, HasManaged;
    var t1 := SweptTable(t, m0, stale[0], alive[0]);
    SilentSweep(t, m0, stale[0], alive[0], a);
    var t2 := SweptTable(t1, m1, stale[1], alive[1]);
    SilentSweep(t1, m1, stale[1], alive[1], a);
    SilentSweep(t2, m2, stale[2], alive[2], a);
  }

  lemma ShowAllOfNone(t: Table)
    ensures ShowAll(t, {}) == t
  {
  }

  /** Table, counters and books after the third loop has gone through the accounts `done`. */
  datatype Books = Books(t: Table, misses: map<string, nat>, hidden: set<string>)

  ghost predicate CountedUpTo(b: Books, alive: set<string>, done: set<string>, c: Books) {
    && c.t == HideAll(b.t, done * MissedOut(b.t, b.misses, alive))
    && c.hidden == b.hidden + done * MissedOut(b.t, b.misses, alive)
    && forall a :: MissesOf(c.misses, a)
                   == if a in done then CountedMisses(b.t, b.misses, alive, a) else MissesOf(b.misses, a)
  }

  predicate Missed(b: Books, alive: set<string>, a: string) {
    a !in alive && MissesOf(b.misses, a) + 1 >= MAX_MISSES
  }

  /** What the third loop does with one listed account. */
  ghost predicate CountedOne(b: Books, alive: set<string>, a: string, c: Books) {
    && c.t == (if Missed(b, alive, a) then Hide(b.t, a) else b.t)
    && c.hidden == b.hidden + (if Missed(b, alive, a) && HasManaged(b.t, a) then {a} else {})
    && forall x :: MissesOf(c.misses, x) ==
                   (if x != a then MissesOf(b.misses, x)
                    else if a in alive || Missed(b, alive, a) then 0
                    else MissesOf(b.misses, x) + 1)
  }

  /** A listed account not gone through yet still has its groups and its counter. */
  lemma CountedHas(b: Books, alive: set<string>, done: set<string>, c: Books, a: string)
    requires CountedUpTo(b, alive, done, c) && a !in done && HasManaged(b.t, a)
    ensures HasManaged(c.t, a) && MissesOf(c.misses, a) == MissesOf(b.misses, a)
    ensures Missed(c, alive, a) <==> Missed(b, alive, a)
    ensures (done + {a}) * MissedOut(b.t, b.misses, alive)
         == done * MissedOut(b.t, b.misses, alive) + if Missed(b, alive, a) then {a} else {}
  {
    hide HideAll, MissedOut, HasManaged;
    ManagedAfterHide(b.t, done * MissedOut(b.t, b.misses, alive), a);
    MissedOutIs(b.t, b.misses, alive, a);
  }

  lemma CountedOneMore(b: Books, alive: set<string>, done: set<string>, c: Books, a: string, d: Books)
    requires CountedUpTo(b, alive, done, c) && CountedOne(c, alive, a, d)
    requires a !in done && HasManaged(b.t, a)
    ensures CountedUpTo(b, alive, done + {a}, d)
  {
    hide HideAll, Hide, MissedOut, HasManaged, MissesOf, Missed;
    var out := MissedOut(b.t, b.misses, alive);
    CountedHas(b, alive, done, c, a);
    HideAllAdds(b.t, done * out, a);
    assert (done + {a}) * out == if Missed(b, alive, a) then done * out + {a} else done * out;
    assert d.hidden == b.hidden + (done + {a}) * out;
    forall x ensures MissesOf(d.misses, x)
        == if x in done + {a} then CountedMisses(b.t, b.misses, alive, x) else MissesOf(b.misses, x)
    {
      if x == a {
        CountedMissesOf(b, alive, a);
      }
    }
  }

  lemma CountedMissesOf(b: Books, alive: set<string>, a: string)
    requires HasManaged(b.t, a)
    ensures CountedMisses(b.t, b.misses, alive, a)
         == if a in alive || Missed(b, alive, a) then 0 else MissesOf(b.misses, a) + 1
  {
  }

  /** The accounts listed with a managed group, and those of them with no miss to spare. */
  lemma MissedOutHas(t: Table, misses: map<string, nat>, alive: set<string>, listed: set<string>)
    requires listed == set g | g in t && t[g].managed && t[g].account != "" :: t[g].account
    ensures forall a :: a in listed <==> HasManaged(t, a)
    ensures forall a :: a in MissedOut(t, misses, alive) <==>
                        a in listed && a !in alive && MissesOf(misses, a) + 1 >= MAX_MISSES
  {
  }

  lemma CountedFromNone(b: Books, alive: set<string>)
    ensures CountedUpTo(b, alive, {}, b)
  {
  }

  lemma CountedToTheEnd(b: Books, alive: set<string>, listed: set<string>, c: Books)
    requires listed == set g | g in b.t && b.t[g].managed && b.t[g].account != "" :: b.t[g].account
    requires CountedUpTo(b, alive, listed, c)
    ensures c.t == HideAll(b.t, MissedOut(b.t, b.misses, alive))
    ensures c.hidden == b.hidden + MissedOut(b.t, b.misses, alive)
    ensures forall a :: MissesOf(c.misses, a) == CountedMisses(b.t, b.misses, alive, a)
  {
    hide HideAll;
    MissedOutHas(b.t, b.misses, alive, listed);
    assert listed * MissedOut(b.t, b.misses, alive) == MissedOut(b.t, b.misses, alive);
  }

  function Changed(t: Table, u: Table): set<string> {
    set g | g in t && g in u && t[g] != u[g]
  }

  /** The rows the statement of `mark_account_groups_managed` matches. */
  function Matched(t: Table, account: string, managed: bool): set<string> {
    set g | g in t && t[g].account == account && t[g].managed != managed && (managed ==> !t[g].removed)
  }

  lemma MatchedAreChanged(t: Table, account: string, managed: bool)
    requires account != ""
    ensures var u := SetManaged(t, Matched(t, account, managed), managed);
      && u == (if managed then Show(t, account) else Hide(t, account))
      && Changed(t, u) == Matched(t, account, managed)
    ensures !managed ==> (|Matched(t, account, managed)| > 0 <==> HasManaged(t, account))
  {
    var hit := Matched(t, account, managed);
    if !managed && HasManaged(t, account) {
      var g :| g in t && t[g].account == account && t[g].managed;
      assert g in hit;
    }
    if |hit| > 0 {
      var g :| g in hit;
    }
    assert Changed(t, SetManaged(t, hit, managed)) == hit;
  }

  lemma MarkOneMoreRemoved(t: Table, done: set<string>, id: string, removed: bool)
    ensures var u := MarkRemoved(t, done, removed);
      var changes := id in u && u[id].removed != removed;
      var u' := if changes then u[id := u[id].(removed := removed)] else u;
      && u' == MarkRemoved(t, done + {id}, removed)
      && |Changed(t, u')| == |Changed(t, u)| + (if changes then 1 else 0)
  {
    var u := MarkRemoved(t, done, removed);
    if id in u && u[id].removed != removed {
      var u' := u[id := u[id].(removed := removed)];
      assert u' == MarkRemoved(t, done + {id}, removed);
      assert id !in Changed(t, u);
      assert Changed(t, u') == Changed(t, u) + {id};
    } else {
      assert u == MarkRemoved(t, done + {id}, removed);
    }
  }

  function Named(items: seq<Item>): seq<Item> {
    if items == [] then []
    else
      var rest := Named(items[..|items| - 1]);
      if items[|items| - 1].gid == "" then rest else rest + [items[|items| - 1]]
  }

  class Runtime {
    var groups: Table
    var hidden: set<string>
    var misses: map<string, nat>

    ghost predicate Valid()
      reads this
    {
      Sound(State(groups, hidden, Idle))
    }

    /**
     The heal at startup. It does not look at removed rows, so one that a spoiled removal
     left in view stays in view.
     */
    constructor (stored: Table)
      ensures groups == RestoreAll(stored) && hidden == {} && misses == map[]
      ensures Valid() <==> RemovedIsHidden(stored)
    {
      groups, hidden, misses := RestoreAll(stored), {}, map[];
      new;
      assert forall g | g in groups && groups[g].removed :: groups[g] == stored[g];
      assert forall g | g in stored && stored[g].removed :: groups[g] == stored[g];
    }

    /** The count returned is the number of rows whose flag changed. */
    method MarkAccountGroupsManaged(account: string, managed: bool) returns (n: nat)
      modifies this`groups
      ensures groups == if managed then Show(old(groups), account) else Hide(old(groups), account)
      ensures n == |Changed(old(groups), groups)|
      ensures !managed ==> (n > 0 <==> HasManaged(old(groups), account))
    {
      if account == "" {
        assert groups == Show(groups, account) == Hide(groups, account);
        assert Changed(groups, groups) == {};
        return 0;
      }
      var hit := Matched(groups, account, managed);
      MatchedAreChanged(groups, account, managed);
      hide Matched, Show, Hide, Changed, HasManaged;
      n := |hit|;
      groups := SetManaged(groups, hit, managed);
    }

    method SetGroupsManaged(ids: seq<string>, managed: bool)
      modifies this`groups
      ensures groups == SetManaged(old(groups), ToSet(ids), managed)
    {
      if ids == [] {
        assert groups == SetManaged(groups, ToSet(ids), managed);
        return;
      }
      groups := map g | g in groups :: if g in ids then groups[g].(managed := managed) else groups[g];
    }

    /** One guarded update per id, counting the rows whose flag changed. */
    method MarkGroupsRemoved(ids: seq<string>, removed: bool) returns (n: nat)
      modifies this`groups
      ensures groups == MarkRemoved(old(groups), ToSet(ids), removed)
      ensures n == |Changed(old(groups), groups)|
    {
      ghost var t := groups;
      n := 0;
      assert groups == MarkRemoved(t, {}, removed) && Changed(t, groups) == {};
      hide MarkRemoved, Changed;
      for i := 0 to |ids|
        invariant groups == MarkRemoved(t, ToSet(ids[..i]), removed)
        invariant n == |Changed(t, groups)|
      {
        MarkOneMoreRemoved(t, ToSet(ids[..i]), ids[i], removed);
        assert ToSet(ids[..i + 1]) == ToSet(ids[..i]) + {ids[i]};
        if ids[i] in groups && groups[ids[i]].removed != removed {
          groups := groups[ids[i] := groups[ids[i]].(removed := removed)];
          n := n + 1;
        }
      }
      assert ids[..|ids|] == ids;
    }

    /** The two calls of a removal request, taken as one step. */
    method RemoveGroups(ids: seq<string>)
      requires Valid()
      modifies this`groups
      ensures Valid() && State(groups, hidden, Idle) == Apply(old(State(groups, hidden, Idle)), UserRemoves(ToSet(ids)))
    {
      OtherStepsAreSound(State(groups, hidden, Idle), UserRemoves(ToSet(ids)));
      SetGroupsManaged(ids, false);
      var _ := MarkGroupsRemoved(ids, true);
    }

    method RestoreGroups(ids: seq<string>)
      requires Valid()
      modifies this`groups
      ensures Valid() && State(groups, hidden, Idle) == Apply(old(State(groups, hidden, Idle)), UserRestores(ToSet(ids)))
    {
      OtherStepsAreSound(State(groups, hidden, Idle), UserRestores(ToSet(ids)));
      var _ := MarkGroupsRemoved(ids, false);
      SetGroupsManaged(ids, true);
    }

    /** Items without an id are dropped; each of the others touches one row. */
    method UpsertRows(items: seq<Item>) returns (n: nat)
      requires Valid()
      modifies this`groups
      ensures groups == UpsertGroups(old(groups), items)
      ensures Valid() <==> Harmless(old(State(groups, hidden, Idle)), ScanUpserts(items))
      ensures n == |Named(items)|
    {
      StepKeepsSoundIff(State(groups, hidden, Idle), ScanUpserts(items));
      ghost var t := groups;
      n := 0;
      for i := 0 to |items|
        invariant groups == UpsertGroups(t, items[..i])
        invariant n == |Named(items[..i])|
      {
        assert items[..i + 1][..i] == items[..i];
        if items[i].gid != "" {
          groups := UpsertOne(groups, items[i]);
          n := n + 1;
        }
      }
      assert items[..|items|] == items;
    }

    /**
     One pass of the liveness loop: hide the stale accounts, restore the ones that answered,
     then count a miss for every other account that still shows groups.
     */
    method Sweep(stale: seq<string>, alive: set<string>)
      requires Valid()
      modifies this
      ensures Valid()
      ensures groups == SweptTable(old(groups), old(misses), ToSet(stale), alive)
      ensures forall a ::
        MissesOf(misses, a) == SweptMisses(old(groups), old(misses), ToSet(stale), alive, a)
      ensures hidden == SweptHidden(old(groups), old(hidden), old(misses), ToSet(stale), alive)
    {
      ghost var t, counts := groups, misses;
      ghost var gone := ToSet(stale);
      HideStale(stale);
      RestoreAlive(alive);
      CountMisses(alive);
      PhasesGiveSweptTable(t, counts, gone, alive);
      PhasesGiveSweptHidden(t, old(hidden), counts, gone, alive);
      forall a ensures MissesOf(misses, a) == SweptMisses(t, counts, gone, alive, a) {
        PhasesGiveSweptMisses(t, counts, gone, alive, a);
      }
    }

    method HideStale(stale: seq<string>)
      requires Valid()
      modifies this`groups, this`hidden
      ensures Valid() && groups == HideAll(old(groups), ToSet(stale))
      ensures hidden == old(hidden) + Noted(old(groups), ToSet(stale))
    {
      hide HideAll, Hide, Noted, HasManaged, Sound, ToSet;
      NothingHidden(groups);
      ToSetAdds(stale);
      for i := 0 to |stale|
        invariant Valid() && groups == HideAll(old(groups), ToSet(stale[..i]))
        invariant hidden == old(hidden) + Noted(old(groups), ToSet(stale[..i]))
      {
        NotedAdds(old(groups), ToSet(stale[..i]), stale[i]);
        HideAllAdds(old(groups), ToSet(stale[..i]), stale[i]);
        HideAndNote(stale[i]);
      }
      assert stale[..|stale|] == stale;
    }

    method HideAndNote(account: string)
      requires Valid()
      modifies this`groups, this`hidden
      ensures Valid() && groups == Hide(old(groups), account)
      ensures hidden == old(hidden) + if HasManaged(old(groups), account) then {account} else {}
    {
      ghost var s := State(groups, hidden, Idle);
      OtherStepsAreSound(s, HideWrite(account));
      ghost var w := Apply(s, HideWrite(account));
      if HasManaged(groups, account) {
        OtherStepsAreSound(w, Note);
      }
      var n := MarkAccountGroupsManaged(account, false);
      if n > 0 {
        hidden := hidden + {account};
      }
    }

    method RestoreAlive(alive: set<string>)
      requires Valid()
      modifies this`groups, this`hidden
      ensures Valid() && hidden == old(hidden) - alive
      ensures groups == ShowAll(old(groups), alive)
    {
      hide ShowAll, Show, Sound;
      var todo := alive;
      ShowAllOfNone(groups);
      assert alive - todo == {};
      while todo != {}
        invariant todo <= alive && Valid() && hidden == old(hidden) - (alive - todo)
        invariant groups == ShowAll(old(groups), alive - todo)
        decreases |todo|
      {
        var a :| a in todo;
        ShowAllAdds(old(groups), alive - todo, a);
        RestoreAndForget(a);
        assert alive - (todo - {a}) == alive - todo + {a};
        todo := todo - {a};
      }
      assert alive - todo == alive;
    }

    /** An account outside `_hidden_accounts` is skipped: it has nothing to restore. */
    method RestoreAndForget(account: string)
      requires Valid()
      modifies this`groups, this`hidden
      ensures Valid() && groups == Show(old(groups), account) && hidden == old(hidden) - {account}
    {
      if account !in hidden {
        assert groups == Show(groups, account);
        return;
      }
      ghost var s := State(groups, hidden, Idle);
      OtherStepsAreSound(s, RestoreWrite(account));
      OtherStepsAreSound(Apply(s, RestoreWrite(account)), Note);
      var _ := MarkAccountGroupsManaged(account, true);
      hidden := hidden - {account};
    }

    method CountMisses(alive: set<string>)
      requires Valid()
      modifies this
      ensures Valid() && hidden == old(hidden) + MissedOut(old(groups), old(misses), alive)
      ensures groups == HideAll(old(groups), MissedOut(old(groups), old(misses), alive))
      ensures forall a ::
        MissesOf(misses, a) == CountedMisses(old(groups), old(misses), alive, a)
    {
      hide HideAll, Hide, Sound, MissedOut, HasManaged, CountedUpTo, CountedOne, MissesOf, CountedMisses;
      ghost var b := Books(groups, misses, hidden);
      var listed := set g | g in groups && groups[g].managed && groups[g].account != "" :: groups[g].account;
      MissedOutHas(groups, misses, alive, listed);
      CountedFromNone(b, alive);
      var todo := listed;
      ghost var done: set<string> := {};
      while todo != {}
        invariant todo + done == listed && todo !! done
        invariant Valid() && CountedUpTo(b, alive, done, Books(groups, misses, hidden))
        decreases |todo|
      {
        var a :| a in todo;
        ghost var c := Books(groups, misses, hidden);
        CountMiss(a, alive);
        CountedOneMore(b, alive, done, c, a, Books(groups, misses, hidden));
        todo, done := todo - {a}, done + {a};
      }
      assert done == listed;
      CountedToTheEnd(b, alive, listed, Books(groups, misses, hidden));
    }

    method CountMiss(account: string, alive: set<string>)
      requires Valid()
      modifies this
      ensures Valid()
      ensures CountedOne(old(Books(groups, misses, hidden)), alive, account, Books(groups, misses, hidden))
    {
      hide Hide, Sound, HasManaged;
      if account in alive {
        misses := misses - {account};
        return;
      }
      var count := MissesOf(misses, account) + 1;
      misses := misses[account := count];
      if count < MAX_MISSES {
        return;
      }
      misses := misses - {account};
      HideAndNote(account);
    }
  }
}
