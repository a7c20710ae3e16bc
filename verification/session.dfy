/**
  A session: the bot handling a sequence of IRC messages one after another,
  as the IRC client's event loop delivers them, starting from the context
  template. The context is shared by every request, so what one request
  writes into it is still there for the next; the invariant below says
  which of its keys nevertheless keep their template values.
 */
module Session {
  import opened Messages
  import opened IrcBot

  /** One message the IRC client delivers. A channel line carries the
      nickname the connection holds at the time. */
  datatype Inbound =
    | ChannelLine(nick: string, sender: string, text: string, outcome: PublishOutcome)
    | PrivateLine(sender: string, text: string, outcome: PublishOutcome)

  function Handle(b: Bridge, m: Inbound): Step
  {
    match m
    case ChannelLine(nick, sender, text, outcome) => OnPubMsg(b, nick, sender, text, outcome)
    case PrivateLine(sender, text, outcome) => OnPrivMsg(b, sender, text, outcome)
  }

  /** The messages handled in order; `die` stops the handling of IRC
      messages, so nothing after it is handled. */
  function Run(b: Bridge, ms: seq<Inbound>): (s: Step)
    ensures s.bridge.channel == b.channel
    ensures |ms| > 0 ==> Handle(b, ms[0]).effects <= s.effects
    decreases |ms|
  {
    if |ms| == 0 then Step(b, [])
    else
      var first := Handle(b, ms[0]);
      if Die in first.effects then first
      else
        var rest := Run(first.bridge, ms[1..]);
        Step(rest.bridge, first.effects + rest.effects)
  }

  /** A request location the bridge itself writes. */
  predicate KnownLocation(v: Value)
  {
    v == Str(PUBMSG) || v == Str(PRIVMSG)
  }

  /** The context keeps the template's media, mood and sex, its location
      is unset or one of the two tags, and it holds no key beyond the
      template's and `text`. */
  predicate WellFormed(ctx: Context)
  {
    && ctx.Keys <= {"media", "location", "identity", "mood", "sex", "text"}
    && "media" in ctx && ctx["media"] == Str("irc")
    && "mood" in ctx && ctx["mood"] == Null
    && "sex" in ctx && ctx["sex"] == Null
    && "location" in ctx && (ctx["location"] == Null || KnownLocation(ctx["location"]))
  }

  /** A request on the bus is well formed and carries one of the two
      location tags. */
  predicate GoodPublish(e: Effect)
  {
    e.Publish? ==> e.topic == INPUT_TOPIC && WellFormed(e.event) && KnownLocation(e.event["location"])
  }

  lemma TemplateWellFormed()
    ensures WellFormed(TEMPLATE)
  {
  }

  /** One message keeps the context well formed and publishes only well
      formed requests. */
  lemma HandleKeepsContext(b: Bridge, m: Inbound)
    requires WellFormed(b.context)
    ensures var s := Handle(b, m);
      && s.bridge.channel == b.channel
      && WellFormed(s.bridge.context)
      && forall i :: 0 <= i < |s.effects| ==> GoodPublish(s.effects[i])
  {
    var s := Handle(b, m);
    match m
    case ChannelLine(nick, sender, text, outcome) =>
      match ChannelCommand(nick, text) {
        case Ignored =>
        case Command(cmd) => DispatchKeepsContext(b, sender, cmd, PUBMSG, outcome);
      }
    case PrivateLine(sender, text, outcome) =>
      DispatchKeepsContext(b, sender, text, PRIVMSG, outcome);
  }

  lemma DispatchKeepsContext(b: Bridge, sender: string, cmd: string, location: string, outcome: PublishOutcome)
    requires WellFormed(b.context)
    requires location == PUBMSG || location == PRIVMSG
    ensures var s := DoCommand(b, sender, cmd, location, outcome);
      && s.bridge.channel == b.channel
      && WellFormed(s.bridge.context)
      && forall i :: 0 <= i < |s.effects| ==> GoodPublish(s.effects[i])
  {
    var s := DoCommand(b, sender, cmd, location, outcome);
    if !Reserved(cmd) {
      var ctx := s.bridge.context;
      assert ctx["media"] == b.context["media"];
      assert ctx["mood"] == b.context["mood"];
      assert ctx["sex"] == b.context["sex"];
    }
  }

  /** Over a whole session the channel never changes, the context stays
      well formed, and every request published carries the irc media and
      one of the two location tags. */
  lemma {:induction false} RunKeepsContext(b: Bridge, ms: seq<Inbound>)
    requires WellFormed(b.context)
    ensures var s := Run(b, ms);
      && s.bridge.channel == b.channel
      && WellFormed(s.bridge.context)
      && forall i :: 0 <= i < |s.effects| ==> GoodPublish(s.effects[i])
    decreases |ms|
  {
    if |ms| > 0 {
      var first := Handle(b, ms[0]);
      HandleKeepsContext(b, ms[0]);
      if Die !in first.effects {
        RunKeepsContext(first.bridge, ms[1..]);
        var rest := Run(first.bridge, ms[1..]);
        assert Run(b, ms).effects == first.effects + rest.effects;
        forall i | 0 <= i < |first.effects + rest.effects|
          ensures GoodPublish((first.effects + rest.effects)[i])
        {
          if i >= |first.effects| {
            assert (first.effects + rest.effects)[i] == rest.effects[i - |first.effects|];
          }
        }
      }
    }
  }

  /** `die` is final: when it happens it is the last effect of the
      session, and it happens only once. */
  lemma {:induction false} DieIsLast(b: Bridge, ms: seq<Inbound>)
    ensures DieLast(Run(b, ms).effects)
    decreases |ms|
  {
    if |ms| > 0 {
      var first := Handle(b, ms[0]);
      HandleDieAlone(b, ms[0]);
      if Die !in first.effects {
        var rest := Run(first.bridge, ms[1..]).effects;
        assert Run(b, ms).effects == first.effects + rest;
        DieIsLast(first.bridge, ms[1..]);
        DieLastAppend(first.effects, rest);
      }
    }
  }

  /** `Die`, if present, is the last effect and occurs once. */
  predicate DieLast(effs: seq<Effect>)
  {
    Die in effs ==> effs[|effs| - 1] == Die && Die !in effs[..|effs| - 1]
  }

  lemma DieLastAppend(first: seq<Effect>, rest: seq<Effect>)
    requires Die !in first && DieLast(rest)
    ensures DieLast(first + rest)
  {
    var effs := first + rest;
    if Die in effs {
      assert Die in rest;
      assert effs[|effs| - 1] == rest[|rest| - 1];
      assert effs[..|effs| - 1] == first + rest[..|rest| - 1];
    }
  }

  /** A message that makes the bot die has that as its only effect. */
  lemma HandleDieAlone(b: Bridge, m: Inbound)
    ensures Die in Handle(b, m).effects ==> Handle(b, m).effects == [Die]
  {
    match m
    case ChannelLine(nick, sender, text, outcome) =>
      match ChannelCommand(nick, text) {
        case Ignored =>
        case Command(cmd) => DispatchDieAlone(b, sender, cmd, PUBMSG, outcome);
      }
    case PrivateLine(sender, text, outcome) =>
      DispatchDieAlone(b, sender, text, PRIVMSG, outcome);
  }

  lemma DispatchDieAlone(b: Bridge, sender: string, cmd: string, location: string, outcome: PublishOutcome)
    ensures var effs := DoCommand(b, sender, cmd, location, outcome).effects;
      Die in effs ==> effs == [Die]
  {
    var effs := DoCommand(b, sender, cmd, location, outcome).effects;
    if !Reserved(cmd) && outcome.Failed? {
      assert forall i :: 0 <= i < |effs| ==> effs[i].Notice?;
    }
  }
}
