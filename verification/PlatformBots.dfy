/**
 The bot registry of core/platform.py: which connections answer, for which account, and
 where an operation on behalf of an account is routed after a liveness purge.
 */
module PlatformBots {
  import opened Options

  /** Connections are compared by identity. */
  type Bot = nat

  /** A Python dict in insertion order: rebinding a key keeps its place. */
  datatype Binding = Binding(account: string, bot: Bot)

  ghost predicate OneEach(bindings: seq<Binding>) {
    forall i, j | 0 <= i < j < |bindings| :: bindings[i].account != bindings[j].account
  }

  predicate Bound(bindings: seq<Binding>, account: string, bot: Bot) {
    Binding(account, bot) in bindings
  }

  function Bind(bindings: seq<Binding>, account: string, bot: Bot): (r: seq<Binding>)
    ensures OneEach(bindings) ==> OneEach(r)
    ensures OneEach(bindings) ==> forall b :: b in r <==>
              b == Binding(account, bot) || (b in bindings && b.account != account)
    ensures forall b | b in r :: b.account == account || b in bindings
  {
    if bindings == [] then [Binding(account, bot)]
    else if bindings[0].account == account then [Binding(account, bot)] + bindings[1..]
    else [bindings[0]] + Bind(bindings[1..], account, bot)
  }

  function Unbind(bindings: seq<Binding>, account: string): (r: seq<Binding>)
    ensures OneEach(bindings) ==> OneEach(r)
    ensures forall b :: b in r <==> b in bindings && b.account != account
  {
    if bindings == [] then []
    else (if bindings[0].account == account then [] else [bindings[0]]) + Unbind(bindings[1..], account)
  }

  /** The first account bound to a connection. */
  function AccountOf(bindings: seq<Binding>, bot: Bot): (r: Option<string>)
    ensures r.Some? ==> Binding(r.value, bot) in bindings
    ensures r.None? ==> forall b | b in bindings :: b.bot != bot
  {
    if bindings == [] then None
    else if bindings[0].bot == bot then Some(bindings[0].account)
    else AccountOf(bindings[1..], bot)
  }

  ghost predicate Distinct(bots: seq<Bot>) {
    forall i, j | 0 <= i < j < |bots| :: bots[i] != bots[j]
  }

  /** What a connection's probe, or its one retry, answered: the account it is logged in as. */
  type Probe = Bot -> Option<string>

  function Answering(bots: seq<Bot>, probe: Probe): seq<Bot> {
    if bots == [] then []
    else Answering(bots[..|bots| - 1], probe) + if probe(bots[|bots| - 1]).Some? then [bots[|bots| - 1]] else []
  }

  /** The last connection that answered for an account. */
  function LastAnswering(bots: seq<Bot>, probe: Probe, account: string): Option<Bot> {
    if bots == [] then None
    else if probe(bots[|bots| - 1]) == Some(account) then Some(bots[|bots| - 1])
    else LastAnswering(bots[..|bots| - 1], probe, account)
  }

  lemma {:induction false} LastAnsweringAnswers(bots: seq<Bot>, probe: Probe, account: string)
    ensures match LastAnswering(bots, probe, account)
      case Some(b) => b in bots && probe(b) == Some(account)
      case None => forall b | b in bots :: probe(b) != Some(account)
  {
    if bots != [] && probe(bots[|bots| - 1]) != Some(account) {
      LastAnsweringAnswers(bots[..|bots| - 1], probe, account);
    }
  }

  lemma {:induction false} AnsweringAre(bots: seq<Bot>, probe: Probe)
    ensures forall b :: b in Answering(bots, probe) <==> b in bots && probe(b).Some?
    ensures Distinct(bots) ==> Distinct(Answering(bots, probe))
  {
    if bots != [] {
      AnsweringAre(bots[..|bots| - 1], probe);
    }
  }

  /**
   Where an account stands once the connections `seen` have been probed: bound to the last
   that answered for it, or cut off as stale, or as it was.
   */
  ghost predicate Settled(
    seen: seq<Bot>, probe: Probe, online0: set<string>, bindings0: seq<Binding>,
    stale: seq<string>, online: set<string>, bindings: seq<Binding>, a: string)
  {
    match LastAnswering(seen, probe, a)
    case Some(b) => a in online && Bound(bindings, a, b)
    case None =>
      if a in stale then a !in online && forall b :: !Bound(bindings, a, b)
      else (a in online <==> a in online0) && forall b :: Bound(bindings, a, b) <==> Bound(bindings0, a, b)
  }

  lemma NothingSettled(probe: Probe, online: set<string>, bindings: seq<Binding>, a: string)
    ensures Settled([], probe, online, bindings, [], online, bindings, a)
  {
  }

  lemma AnswerSettles(
    seen: seq<Bot>, bot: Bot, probe: Probe, online0: set<string>, bindings0: seq<Binding>,
    stale: seq<string>, online: set<string>, bindings: seq<Binding>, a: string)
    requires OneEach(bindings) && probe(bot).Some?
    requires Settled(seen, probe, online0, bindings0, stale, online, bindings, a)
    ensures var account := probe(bot).value;
      Settled(seen + [bot], probe, online0, bindings0, stale, online + {account}, Bind(bindings, account, bot), a)
  {
    assert (seen + [bot])[..|seen|] == seen;
    var r := Bind(bindings, probe(bot).value, bot);
    assert a != probe(bot).value ==> forall b :: Bound(r, a, b) <==> Bound(bindings, a, b);
    assert Bound(r, probe(bot).value, bot);
  }

  /**
   A connection that does not answer cannot take down an account that another one has just
   answered for: that account is bound to the other by then.
   */
  lemma SilenceSettles(
    seen: seq<Bot>, bot: Bot, probe: Probe, online0: set<string>, bindings0: seq<Binding>,
    stale: seq<string>, online: set<string>, bindings: seq<Binding>, a: string, gone: string)
    requires OneEach(bindings) && bot !in seen && probe(bot).None?
    requires Bound(bindings, gone, bot)
    requires Settled(seen, probe, online0, bindings0, stale, online, bindings, a)
    ensures Settled(seen + [bot], probe, online0, bindings0, stale + [gone], online - {gone}, Unbind(bindings, gone), a)
  {
    assert (seen + [bot])[..|seen|] == seen;
    LastAnsweringAnswers(seen, probe, a);
    var r := Unbind(bindings, gone);
    assert forall b :: Bound(r, a, b) <==> Bound(bindings, a, b) && a != gone;
  }

  lemma UnknownSettles(
    seen: seq<Bot>, bot: Bot, probe: Probe, online0: set<string>, bindings0: seq<Binding>,
    stale: seq<string>, online: set<string>, bindings: seq<Binding>, a: string)
    requires probe(bot).None?
    requires Settled(seen, probe, online0, bindings0, stale, online, bindings, a)
    ensures Settled(seen + [bot], probe, online0, bindings0, stale, online, bindings, a)
  {
    assert (seen + [bot])[..|seen|] == seen;
  }

  /** No other account is bound to the same connection. */
  ghost predicate Sole(bindings: seq<Binding>, a: string, bot: Bot) {
    Bound(bindings, a, bot) && forall x | Bound(bindings, x, bot) :: x == a
  }

  /**
   Which accounts a purge calls stale: only ones that were bound to a silent connection, and
   every unanswered one that was the only account of such a connection.
   */
  ghost predicate Attributed(
    seen: seq<Bot>, probe: Probe, bindings0: seq<Binding>, stale: seq<string>, bindings: seq<Binding>, a: string)
  {
    && (a in stale ==> exists c :: c in seen && probe(c).None? && Bound(bindings0, a, c))
    && (forall c | Bound(bindings, a, c) && probe(c).None? :: Bound(bindings0, a, c))
    && (forall c | Sole(bindings0, a, c) && probe(c).None? && a != "" && LastAnswering(seen, probe, a).None? ::
          if c in seen then a in stale else Bound(bindings, a, c))
  }

  lemma NothingAttributed(probe: Probe, bindings: seq<Binding>, a: string)
    ensures Attributed([], probe, bindings, [], bindings, a)
  {
  }

  lemma AnswerAttributes(
    seen: seq<Bot>, bot: Bot, probe: Probe, b0: seq<Binding>, stale: seq<string>, bindings: seq<Binding>, a: string)
    requires OneEach(bindings) && probe(bot).Some?
    requires Attributed(seen, probe, b0, stale, bindings, a)
    ensures Attributed(seen + [bot], probe, b0, stale, Bind(bindings, probe(bot).value, bot), a)
  {
    assert (seen + [bot])[..|seen|] == seen;
    var r := Bind(bindings, probe(bot).value, bot);
    assert forall c :: Bound(r, a, c) <==>
      (a == probe(bot).value && c == bot) || (a != probe(bot).value && Bound(bindings, a, c));
  }

  lemma SilenceAttributes(
    seen: seq<Bot>, bot: Bot, probe: Probe, b0: seq<Binding>, stale: seq<string>, bindings: seq<Binding>,
    a: string, gone: string)
    requires OneEach(bindings) && probe(bot).None? && Bound(bindings, gone, bot)
    requires Attributed(seen, probe, b0, stale, bindings, a) && Attributed(seen, probe, b0, stale, bindings, gone)
    ensures Attributed(seen + [bot], probe, b0, stale + [gone], Unbind(bindings, gone), a)
  {
    var r := Unbind(bindings, gone);
    hide Unbind;
    assert (seen + [bot])[..|seen|] == seen && bot in seen + [bot];
    assert forall c :: Bound(r, a, c) <==> Bound(bindings, a, c) && a != gone;
    assert forall c | Bound(bindings, gone, c) :: c == bot;
    assert Bound(b0, gone, bot);
    if a == gone {
      assert a in stale + [gone];
    } else {
      assert a in stale + [gone] <==> a in stale;
      assert !Sole(b0, a, bot);
    }
  }

  lemma UnknownAttributes(
    seen: seq<Bot>, bot: Bot, probe: Probe, b0: seq<Binding>, stale: seq<string>, bindings: seq<Binding>, a: string)
    requires probe(bot).None? && (AccountOf(bindings, bot).Some? ==> AccountOf(bindings, bot).value == "")
    requires Attributed(seen, probe, b0, stale, bindings, a) && Attributed(seen, probe, b0, stale, bindings, "")
    ensures Attributed(seen + [bot], probe, b0, stale, bindings, a)
  {
    assert (seen + [bot])[..|seen|] == seen;
    assert AccountOf(bindings, bot).Some? ==> Bound(bindings, "", bot) && Bound(b0, "", bot);
    assert a != "" && Sole(b0, a, bot) ==> AccountOf(bindings, bot).None? && !Bound(bindings, a, bot);
  }

  /** Every account stands where the connections probed so far leave it. */
  ghost predicate AllSettled(
    seen: seq<Bot>, probe: Probe, online0: set<string>, bindings0: seq<Binding>,
    stale: seq<string>, online: set<string>, bindings: seq<Binding>)
  {
    && (forall a :: Settled(seen, probe, online0, bindings0, stale, online, bindings, a))
    && (forall a :: Attributed(seen, probe, bindings0, stale, bindings, a))
  }

  lemma NoneSeen(probe: Probe, online: set<string>, bindings: seq<Binding>)
    ensures AllSettled([], probe, online, bindings, [], online, bindings)
  {
    forall a ensures Settled([], probe, online, bindings, [], online, bindings, a)
             ensures Attributed([], probe, bindings, [], bindings, a)
    {
      NothingSettled(probe, online, bindings, a);
      NothingAttributed(probe, bindings, a);
    }
  }

  lemma OneAnswered(
    seen: seq<Bot>, bot: Bot, probe: Probe, o0: set<string>, b0: seq<Binding>,
    stale: seq<string>, online: set<string>, bindings: seq<Binding>)
    requires OneEach(bindings) && probe(bot).Some?
    requires AllSettled(seen, probe, o0, b0, stale, online, bindings)
    ensures var account := probe(bot).value;
      AllSettled(seen + [bot], probe, o0, b0, stale, online + {account}, Bind(bindings, account, bot))
  {
    hide Settled, Attributed;
    var account := probe(bot).value;
    var r := Bind(bindings, account, bot);
    forall a ensures Settled(seen + [bot], probe, o0, b0, stale, online + {account}, r, a)
             ensures Attributed(seen + [bot], probe, b0, stale, r, a)
    {
      AnswerSettles(seen, bot, probe, o0, b0, stale, online, bindings, a);
      AnswerAttributes(seen, bot, probe, b0, stale, bindings, a);
    }
  }

  lemma OneWentStale(
    seen: seq<Bot>, bot: Bot, probe: Probe, o0: set<string>, b0: seq<Binding>,
    stale: seq<string>, online: set<string>, bindings: seq<Binding>, gone: string)
    requires OneEach(bindings) && bot !in seen && probe(bot).None? && Bound(bindings, gone, bot)
    requires AllSettled(seen, probe, o0, b0, stale, online, bindings)
    ensures AllSettled(seen + [bot], probe, o0, b0, stale + [gone], online - {gone}, Unbind(bindings, gone))
  {
    hide Settled, Attributed;
    var r := Unbind(bindings, gone);
    forall a ensures Settled(seen + [bot], probe, o0, b0, stale + [gone], online - {gone}, r, a)
             ensures Attributed(seen + [bot], probe, b0, stale + [gone], r, a)
    {
      SilenceSettles(seen, bot, probe, o0, b0, stale, online, bindings, a, gone);
      SilenceAttributes(seen, bot, probe, b0, stale, bindings, a, gone);
    }
  }

  lemma OneUnknown(
    seen: seq<Bot>, bot: Bot, probe: Probe, o0: set<string>, b0: seq<Binding>,
    stale: seq<string>, online: set<string>, bindings: seq<Binding>)
    requires probe(bot).None? && (AccountOf(bindings, bot).Some? ==> AccountOf(bindings, bot).value == "")
    requires AllSettled(seen, probe, o0, b0, stale, online, bindings)
    ensures AllSettled(seen + [bot], probe, o0, b0, stale, online, bindings)
  {
    hide Settled, Attributed;
    forall a ensures Settled(seen + [bot], probe, o0, b0, stale, online, bindings, a)
             ensures Attributed(seen + [bot], probe, b0, stale, bindings, a)
    {
      UnknownSettles(seen, bot, probe, o0, b0, stale, online, bindings, a);
      UnknownAttributes(seen, bot, probe, b0, stale, bindings, a);
    }
  }

  /** The pairs a purge hands on: each answering connection with the account it answered for. */
  ghost predicate Reports(alive: seq<Binding>, kept: seq<Bot>, probe: Probe) {
    |alive| == |kept| &&
    forall k | 0 <= k < |kept| :: alive[k].bot == kept[k] && probe(kept[k]) == Some(alive[k].account)
  }

  lemma NothingReported(probe: Probe)
    ensures Reports([], [], probe) && Answering([], probe) == []
  {
  }

  lemma ReportOneMore(alive: seq<Binding>, kept: seq<Bot>, probe: Probe, bot: Bot)
    requires Reports(alive, kept, probe) && probe(bot).Some?
    ensures Reports(alive + [Binding(probe(bot).value, bot)], kept + [bot], probe)
  {
  }

  lemma AnsweringOneMore(seen: seq<Bot>, bot: Bot, probe: Probe)
    ensures Answering(seen + [bot], probe) == Answering(seen, probe) + if probe(bot).Some? then [bot] else []
  {
    assert (seen + [bot])[..|seen|] == seen;
  }

  lemma NotSeenYet(bots: seq<Bot>, i: nat)
    requires Distinct(bots) && i < |bots|
    ensures bots[i] !in bots[..i]
  {
  }

  class Resolver {
    var bots: seq<Bot>
    var bindings: seq<Binding>
    var online: set<string>
    var preferred: Option<Bot>
    var last: Option<Bot>

    ghost predicate Valid()
      reads this
    {
      Distinct(bots) && OneEach(bindings)
    }

    method AddBot(bot: Bot) returns (added: bool)
      requires Valid()
      modifies this`bots
      ensures Valid() && added == (bot !in old(bots))
      ensures bots == if added then old(bots) + [bot] else old(bots)
    {
      added := bot !in bots;
      if added {
        bots := bots + [bot];
      }
    }

    /** A binding counts only while its connection is registered. */
    method BotForAccount(account: string) returns (r: Option<Bot>)
      requires Valid()
      ensures r.Some? <==> exists b :: Bound(bindings, account, b) && b in bots
      ensures r.Some? ==> Bound(bindings, account, r.value) && r.value in bots
    {
      for i := 0 to |bindings|
        invariant forall j | 0 <= j < i :: bindings[j].account != account
      {
        if bindings[i].account == account {
          assert Bound(bindings, account, bindings[i].bot);
          assert forall b | Bound(bindings, account, b) :: b == bindings[i].bot;
          return if bindings[i].bot in bots then Some(bindings[i].bot) else None;
        }
      }
      r := None;
    }

    /**
     After a purge the registry holds the connections that answered, in order. Every account
     one of them answered for is online and bound to the last that did; a stale account
     nobody answered for is neither online nor bound; the others are as they were.
     */
    method PurgeStaleBots(probe: Probe) returns (stale: seq<string>, alive: seq<Binding>)
      requires Valid()
      modifies this
      ensures Valid() && bots == Answering(old(bots), probe)
      ensures Reports(alive, bots, probe)
      ensures AllSettled(old(bots), probe, old(online), old(bindings), stale, online, bindings)
      ensures preferred == if old(preferred).None? || old(preferred).value in bots then old(preferred)
                           else if bots != [] then Some(bots[0]) else None
      ensures last == if old(last).None? || old(last).value in bots then old(last) else None
    {
      hide AllSettled, LastAnswering, Bind, Unbind, AccountOf, Answering, Reports, Distinct, OneEach;
      NothingReported(probe);
      stale, alive := [], [];
      var kept: seq<Bot> := [];
      ghost var b0, o0 := bindings, online;
      NoneSeen(probe, online, bindings);
      for i := 0 to |bots|
        invariant bots == old(bots) && Valid() && preferred == old(preferred) && last == old(last)
        invariant kept == Answering(bots[..i], probe) && Reports(alive, kept, probe)
        invariant AllSettled(bots[..i], probe, o0, b0, stale, online, bindings)
      {
        var bot := bots[i];
        ghost var seen := bots[..i];
        assert bots[..i + 1] == seen + [bot];
        AnsweringOneMore(seen, bot, probe);
        NotSeenYet(bots, i);
        var answer := probe(bot);
        if answer.Some? {
          OneAnswered(seen, bot, probe, o0, b0, stale, online, bindings);
          ReportOneMore(alive, kept, probe, bot);
          kept := kept + [bot];
          alive := alive + [Binding(answer.value, bot)];
          online := online + {answer.value};
          bindings := Bind(bindings, answer.value, bot);
        } else {
          var account := AccountOf(bindings, bot);
          if account.Some? && account.value != "" {
            OneWentStale(seen, bot, probe, o0, b0, stale, online, bindings, account.value);
            stale := stale + [account.value];
            online := online - {account.value};
            bindings := Unbind(bindings, account.value);
          } else {
            OneUnknown(seen, bot, probe, o0, b0, stale, online, bindings);
          }
        }
      }
      assert bots[..|bots|] == bots;
      bots := kept;
      AnsweringAre(old(bots), probe);
      if preferred.Some? && preferred.value !in bots {
        preferred := if bots != [] then Some(bots[0]) else None;
      }
      if last.Some? && last.value !in bots {
        last := None;
      }
    }
  }

  lemma OneBinding(bindings: seq<Binding>, a: string, b: Bot, c: Bot)
    requires OneEach(bindings) && Bound(bindings, a, b) && Bound(bindings, a, c)
    ensures b == c
  {
  }

  /**
   Routing follows the login exactly for the accounts somebody answered for: their bound
   connection is the last that did. Any other account that still has a registered connection
   is routed to one that is logged in as somebody else.
   */
  lemma RoutedRightIff(
    bots: seq<Bot>, probe: Probe, o0: set<string>, b0: seq<Binding>,
    stale: seq<string>, online: set<string>, bindings: seq<Binding>, a: string, b: Bot)
    requires OneEach(bindings) && Settled(bots, probe, o0, b0, stale, online, bindings, a)
    requires Bound(bindings, a, b) && b in Answering(bots, probe)
    ensures probe(b) == Some(a) <==> LastAnswering(bots, probe, a).Some?
    ensures probe(b) == Some(a) ==> LastAnswering(bots, probe, a) == Some(b)
  {
    LastAnsweringAnswers(bots, probe, a);
    AnsweringAre(bots, probe);
    if LastAnswering(bots, probe, a).Some? {
      OneBinding(bindings, a, b, LastAnswering(bots, probe, a).value);
    }
  }

  /**
   Whether that happens can be told before the purge: an account is misrouted exactly if it
   is bound to a connection that answers, but for another account, and none answers for it.
   */
  lemma MisroutedIff(
    bots: seq<Bot>, probe: Probe, o0: set<string>, b0: seq<Binding>,
    stale: seq<string>, online: set<string>, bindings: seq<Binding>, a: string, b: Bot)
    requires OneEach(b0) && OneEach(bindings)
    requires AllSettled(bots, probe, o0, b0, stale, online, bindings)
    ensures Bound(bindings, a, b) && b in Answering(bots, probe) && probe(b) != Some(a) <==>
            Bound(b0, a, b) && b in bots && probe(b).Some? && LastAnswering(bots, probe, a).None?
  {
    AnsweringAre(bots, probe);
    LastAnsweringAnswers(bots, probe, a);
    assert Settled(bots, probe, o0, b0, stale, online, bindings, a);
    assert Attributed(bots, probe, b0, stale, bindings, a);
    if Bound(bindings, a, b) && b in Answering(bots, probe) {
      RoutedRightIff(bots, probe, o0, b0, stale, online, bindings, a, b);
    }
    if Bound(b0, a, b) && probe(b).Some? && a in stale {
      var c :| c in bots && probe(c).None? && Bound(b0, a, c);
      OneBinding(b0, a, b, c);
      assert false;
    }
  }

  /** One connection bound to two accounts and logged in as the second: the first is misrouted. */
  lemma SecondLoginMisroutes(
    probe: Probe, o0: set<string>, stale: seq<string>, online: set<string>, bindings: seq<Binding>)
    requires probe(0) == Some("x") && OneEach(bindings)
    requires AllSettled([0], probe, o0, [Binding("a", 0), Binding("x", 0)], stale, online, bindings)
    ensures Bound(bindings, "a", 0) && 0 in Answering([0], probe) && probe(0) != Some("a")
  {
    var b0 := [Binding("a", 0), Binding("x", 0)];
    assert b0[0] == Binding("a", 0);
    assert [0][..0] == [];
    MisroutedIff([0], probe, o0, b0, stale, online, bindings, "a", 0);
  }
}
