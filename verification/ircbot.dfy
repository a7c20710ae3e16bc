/**
  The decision layer of the IRC bot: which command a channel or private
  message carries, what dispatching a command does to the shared context
  and to the sender, how a reply from the bus is routed back to IRC, and
  which nickname is asked for after a collision.

  Each handler is a pure function from its inputs to a `Step`: the bridge
  state afterwards and the effects, in order. The IRC event objects are
  reduced to the sender's nickname and the message text; the outcome of
  the bus publish, which the source learns from an exception, is a
  parameter.
 */
module IrcBot {
  import opened Text
  import opened Messages

  /** The bridge's state: the configured channel and the context
      dictionary that every request is written into. */
  datatype Bridge = Bridge(channel: string, context: Context)

  /** A handler's outcome: the new state and the effects, in order. */
  datatype Step = Step(bridge: Bridge, effects: seq<Effect>)

  /** Whether the bus accepted the publish, and if not, the text of the
      traceback the failure produced. */
  datatype PublishOutcome = Sent | Failed(trace: string)

  /** The commands handled by the bot itself rather than the butler. */
  predicate Reserved(cmd: string)
  {
    cmd == "disconnect" || cmd == "die"
  }

  /* ---------------------------------------------------------------------- */
  /* Command dispatch                                                       */
  /* ---------------------------------------------------------------------- */

  /** `after` is `before` with `text`, `identity` and `location` set to the
      request's values, every other key present with its old value, and no
      other key added. */
  predicate Stamped(before: Context, after: Context, cmd: string, sender: string, location: string)
  {
    && after.Keys == before.Keys + {"text", "identity", "location"}
    && after["text"] == Str(cmd)
    && after["identity"] == Str(sender)
    && after["location"] == Str(location)
    && forall k :: k in before && k != "text" && k != "identity" && k != "location" ==> after[k] == before[k]
  }

  /** One notice per line, to `nick`. */
  function Notices(nick: string, lines: seq<string>): (effs: seq<Effect>)
    ensures |effs| == |lines|
    ensures forall i :: 0 <= i < |effs| ==> effs[i] == Notice(nick, lines[i])
    decreases |lines|
  {
    if |lines| == 0 then [] else [Notice(nick, lines[0])] + Notices(nick, lines[1..])
  }

  /** The texts of the notices among some effects, in order. */
  function NoticeTexts(effs: seq<Effect>): seq<string>
    decreases |effs|
  {
    if |effs| == 0 then []
    else (if effs[0].Notice? then [effs[0].text] else []) + NoticeTexts(effs[1..])
  }

  /** Reading the texts back off a run of notices gives the lines sent. */
  lemma {:induction false} NoticeTextsOfNotices(nick: string, lines: seq<string>)
    ensures NoticeTexts(Notices(nick, lines)) == lines
    decreases |lines|
  {
    if |lines| > 0 {
      var effs, tail := Notices(nick, lines), Notices(nick, lines[1..]);
      assert effs[1..] == tail;
      NoticeTextsOfNotices(nick, lines[1..]);
    }
  }

  /** The report a sender gets when the publish fails: every effect is a
      notice to the sender, the first names the command, the second
      announces the reason, and the rest are the traceback's lines, which
      read back give the whole traceback. */
  predicate FailureReport(effs: seq<Effect>, sender: string, cmd: string, trace: string)
  {
    && |effs| >= 3
    && effs[0] == Notice(sender, FAILURE_NOTICE + cmd)
    && effs[1] == Notice(sender, REASON_NOTICE)
    && (forall i :: 0 <= i < |effs| ==> effs[i].Notice? && effs[i].nick == sender)
    && (forall i :: 2 <= i < |effs| ==> '\n' !in effs[i].text)
    && Join(NoticeTexts(effs[2..]), '\n') == trace
  }

  /** The request written into the context: `text`, `identity` and
      `location` overwritten, everything else kept. */
  function Stamp(ctx: Context, cmd: string, sender: string, location: string): (after: Context)
    ensures Stamped(ctx, after, cmd, sender, location)
  {
    ctx["text" := Str(cmd)]["identity" := Str(sender)]["location" := Str(location)]
  }

  /** The notices a sender gets when the publish of `cmd` fails with
      `trace`: the command, the announcement of the reason, then the
      traceback one line per notice. */
  function FailureNotices(sender: string, cmd: string, trace: string): (effs: seq<Effect>)
    ensures FailureReport(effs, sender, cmd, trace)
  {
    var lines := Split(trace, '\n');
    var tail := Notices(sender, lines);
    var effs := [Notice(sender, FAILURE_NOTICE + cmd), Notice(sender, REASON_NOTICE)] + tail;
    assert effs[2..] == tail;
    forall i | 2 <= i < |effs|
      ensures effs[i] == Notice(sender, lines[i - 2]) && '\n' !in lines[i - 2]
    {
      assert effs[i] == tail[i - 2];
    }
    NoticeTextsOfNotices(sender, lines);
    effs
  }

  /** `do_command`: the reserved commands act on the bot alone; any other
      command is written into the shared context, which is published on
      the input topic, and the sender is told how that went. The context
      is written before the publish, so it keeps the request even when the
      publish fails. */
  function DoCommand(b: Bridge, sender: string, cmd: string, location: string, outcome: PublishOutcome): (s: Step)
    ensures cmd == "disconnect" ==> s == Step(b, [Disconnect])
    ensures cmd == "die" ==> s == Step(b, [Die])
    ensures !Reserved(cmd) ==> s.bridge.channel == b.channel
    ensures !Reserved(cmd) ==> Stamped(b.context, s.bridge.context, cmd, sender, location)
    ensures !Reserved(cmd) && outcome.Sent? ==>
      s.effects == [Publish(INPUT_TOPIC, s.bridge.context), Notice(sender, SUCCESS_NOTICE)]
    ensures !Reserved(cmd) && outcome.Failed? ==> FailureReport(s.effects, sender, cmd, outcome.trace)
  {
    if cmd == "disconnect" then Step(b, [Disconnect])
    else if cmd == "die" then Step(b, [Die])
    else
      var request := Stamp(b.context, cmd, sender, location);
      match outcome
      case Sent => Step(b.(context := request), [Publish(INPUT_TOPIC, request), Notice(sender, SUCCESS_NOTICE)])
      case Failed(trace) => Step(b.(context := request), FailureNotices(sender, cmd, trace))
  }

  /** Number of bus publishes among some effects. */
  function Publishes(effs: seq<Effect>): nat
  {
    if |effs| == 0 then 0
    else (if effs[0].Publish? then 1 else 0) + Publishes(effs[1..])
  }

  /** What dispatch may produce, whatever the command: a reserved command
      neither publishes nor notifies; any other command publishes exactly
      once when the bus accepts it and never otherwise, and never stops the
      bot. */
  lemma DispatchOutcomes(b: Bridge, sender: string, cmd: string, location: string, outcome: PublishOutcome)
    ensures var effs := DoCommand(b, sender, cmd, location, outcome).effects;
      && |effs| >= 1
      && (Reserved(cmd) ==> Publishes(effs) == 0 && forall i :: 0 <= i < |effs| ==> !IsSend(effs[i]))
      && (!Reserved(cmd) ==> Publishes(effs) == (if outcome.Sent? then 1 else 0))
      && (!Reserved(cmd) ==> forall i :: 0 <= i < |effs| ==> effs[i] != Disconnect && effs[i] != Die)
  {
    var effs := DoCommand(b, sender, cmd, location, outcome).effects;
    if !Reserved(cmd) && outcome.Failed? {
      NoPublishAmongNotices(effs);
    } else if !Reserved(cmd) {
      assert effs[1..][1..] == [];
      assert Publishes(effs[1..]) == 0;
    }
  }

  lemma {:induction false} NoPublishAmongNotices(effs: seq<Effect>)
    requires forall i :: 0 <= i < |effs| ==> effs[i].Notice?
    ensures Publishes(effs) == 0
    decreases |effs|
  {
    if |effs| > 0 {
      NoPublishAmongNotices(effs[1..]);
    }
  }

  /* ---------------------------------------------------------------------- */
  /* Inbound IRC messages                                                   */
  /* ---------------------------------------------------------------------- */

  /** `on_privmsg`: a private message is a command as it stands. */
  function OnPrivMsg(b: Bridge, sender: string, text: string, outcome: PublishOutcome): (s: Step)
    ensures s.bridge.channel == b.channel
    ensures Reserved(text) ==> s.bridge == b
    ensures !Reserved(text) ==> Stamped(b.context, s.bridge.context, text, sender, PRIVMSG)
  {
    DoCommand(b, sender, text, PRIVMSG, outcome)
  }

  /** What a channel line means to the bot: nothing, or a command. */
  datatype Addressing = Ignored | Command(cmd: string)

  /** The addressing rule of `on_pubmsg`: a channel line is a command only
      when the text before its first colon, as it stands, folds to the
      bot's current nickname; the command is the rest, stripped. */
  function ChannelCommand(nick: string, text: string): (r: Addressing)
    ensures ':' !in text ==> r == Ignored
    ensures r.Command? ==> Trimmed(r.cmd)
  {
    var a := SplitOnce(text, ':');
    if |a| > 1 && Lower(a[0]) == Lower(nick) then Command(Strip(a[1])) else Ignored
  }

  /** `on_pubmsg`: a channel line addressed to the bot is dispatched from
      the channel; any other line has no effect at all. */
  function OnPubMsg(b: Bridge, nick: string, sender: string, text: string, outcome: PublishOutcome): (s: Step)
    ensures ChannelCommand(nick, text).Ignored? <==> s == Step(b, [])
    ensures s.bridge.channel == b.channel
    ensures var a := ChannelCommand(nick, text);
      a.Command? && Reserved(a.cmd) ==> s.bridge == b
    ensures var a := ChannelCommand(nick, text);
      a.Command? && !Reserved(a.cmd) ==> Stamped(b.context, s.bridge.context, a.cmd, sender, PUBMSG)
  {
    match ChannelCommand(nick, text)
    case Ignored => Step(b, [])
    case Command(cmd) =>
      DispatchOutcomes(b, sender, cmd, PUBMSG, outcome);
      DoCommand(b, sender, cmd, PUBMSG, outcome)
  }

  /** The addressing rule, stated on the first colon: the line is a command
      exactly when the text before that colon folds to the nickname, and
      the command is then everything after it, stripped, later colons
      included. */
  lemma ChannelAddressing(nick: string, text: string, i: int)
    requires 0 <= i < |text| && text[i] == ':' && ':' !in text[..i]
    ensures Lower(text[..i]) == Lower(nick) ==> ChannelCommand(nick, text) == Command(Strip(text[i + 1..]))
    ensures Lower(text[..i]) != Lower(nick) ==> ChannelCommand(nick, text) == Ignored
  {
    SplitOnceAtFirst(text, ':', i);
  }

  /** A line made of a name that folds to the nickname, a colon, any run
      of whitespace and a trimmed command carries exactly that command. */
  lemma AddressedWith(nick: string, name: string, pad: string, cmd: string)
    requires ':' !in name && Lower(name) == Lower(nick)
    requires AllSpace(pad) && Trimmed(cmd)
    ensures ChannelCommand(nick, name + [':'] + pad + cmd) == Command(cmd)
  {
    var rest := pad + cmd;
    var text := name + [':'] + rest;
    assert text == name + [':'] + pad + cmd;
    AroundSeparator(name, ':', rest);
    assert rest == pad + cmd + "";
    StripPadded(pad, cmd, "");
    ChannelAddressing(nick, text, |name|);
  }

  /** A channel line addressed to the bot is dispatched with the command
      it carries and the public location. */
  lemma PublicDispatch(b: Bridge, nick: string, sender: string, text: string, cmd: string, outcome: PublishOutcome)
    requires ChannelCommand(nick, text) == Command(cmd)
    ensures OnPubMsg(b, nick, sender, text, outcome) == DoCommand(b, sender, cmd, PUBMSG, outcome)
  {
  }

  /** A private message is dispatched with its text unchanged and the
      private location. */
  lemma PrivateDispatch(b: Bridge, sender: string, text: string, outcome: PublishOutcome)
    ensures OnPrivMsg(b, sender, text, outcome) == DoCommand(b, sender, text, PRIVMSG, outcome)
  {
  }

  /* ---------------------------------------------------------------------- */
  /* Replies from the bus                                                   */
  /* ---------------------------------------------------------------------- */

  /** The reply is meant for IRC. */
  predicate IrcMedia(content: Context)
  {
    "media" in content && content["media"] == Str("irc")
  }

  /** `on_message`: relays a reply on the output topic whose media is IRC
      to the channel or to `reply_to`, according to its location; any other
      location is only logged. A missing key raises `KeyError`. */
  function OnMessage(b: Bridge, msgid: string, content: Context): (r: Handled)
    ensures msgid != OUTPUT_TOPIC ==> r == Handled([])
    ensures r.KeyError? ==> r.key !in content && r.key in {"media", "location", "text", "reply_to"}
    ensures msgid == OUTPUT_TOPIC && "media" !in content ==> r == KeyError("media")
    ensures msgid == OUTPUT_TOPIC && IrcMedia(content) && "location" !in content ==> r == KeyError("location")
    ensures msgid == OUTPUT_TOPIC && IrcMedia(content) && "location" in content ==>
      && (content["location"] == Str(PUBMSG) && "text" !in content ==> r == KeyError("text"))
      && (content["location"] == Str(PRIVMSG) && "reply_to" !in content ==> r == KeyError("reply_to"))
      && (content["location"] == Str(PRIVMSG) && "reply_to" in content && "text" !in content ==> r == KeyError("text"))
    ensures "media" in content && !IrcMedia(content) ==> r == Handled([])
    ensures r.Handled? ==> |r.effects| <= 1
    ensures r.Handled? && |r.effects| == 1 ==>
      && msgid == OUTPUT_TOPIC && IrcMedia(content) && "location" in content
      && (r.effects[0].PrivMsg? || r.effects[0].Warn?)
    ensures r.Handled? && |r.effects| == 1 && r.effects[0].PrivMsg? ==>
      && "text" in content && r.effects[0].text == Render(content["text"])
      && (content["location"] == Str(PUBMSG) ==> r.effects[0].target == Str(b.channel))
      && (content["location"] == Str(PRIVMSG) ==> "reply_to" in content && r.effects[0].target == content["reply_to"])
      && (content["location"] == Str(PUBMSG) || content["location"] == Str(PRIVMSG))
    ensures r.Handled? && |r.effects| == 1 && r.effects[0].Warn? ==>
      && content["location"] != Str(PUBMSG) && content["location"] != Str(PRIVMSG)
      && r.effects[0].text == LOCATION_WARNING + Render(content["location"])
  {
    if msgid != OUTPUT_TOPIC then Handled([])
    else if "media" !in content then KeyError("media")
    else if content["media"] != Str("irc") then Handled([])
    else if "location" !in content then KeyError("location")
    else if content["location"] == Str(PUBMSG) then
      if "text" !in content then KeyError("text")
      else Handled([PrivMsg(Str(b.channel), Render(content["text"]))])
    else if content["location"] == Str(PRIVMSG) then
      if "reply_to" !in content then KeyError("reply_to")
      else if "text" !in content then KeyError("text")
      else Handled([PrivMsg(content["reply_to"], Render(content["text"]))])
    else
      Handled([Warn(LOCATION_WARNING + Render(content["location"]))])
  }

  /** A well-formed reply is always relayed or warned about: on the output
      topic, with IRC media, a known location and the keys it needs, exactly
      one message is sent; with an unknown location, whatever other keys it
      holds, nothing is sent and one warning is logged. */
  lemma ReplyRouting(b: Bridge, content: Context)
    requires IrcMedia(content) && "location" in content
    ensures var r := OnMessage(b, OUTPUT_TOPIC, content);
      && (content["location"] == Str(PUBMSG) && "text" in content ==>
            r == Handled([PrivMsg(Str(b.channel), Render(content["text"]))]))
      && (content["location"] == Str(PRIVMSG) && "reply_to" in content && "text" in content ==>
            r == Handled([PrivMsg(content["reply_to"], Render(content["text"]))]))
      && (content["location"] != Str(PUBMSG) && content["location"] != Str(PRIVMSG) ==>
            r == Handled([Warn(LOCATION_WARNING + Render(content["location"]))]) && !IsSend(r.effects[0]))
  {
  }

  /** A reply built from a published request, with the request's identity
      as `reply_to`, goes back where the request came from: to the channel
      for a channel request, to the sender for a private one. */
  lemma ReplyReturnsToOrigin(b: Bridge, sender: string, cmd: string, location: string, answer: string)
    requires IrcMedia(b.context)
    requires location == PUBMSG || location == PRIVMSG
    requires !Reserved(cmd)
    ensures var s := DoCommand(b, sender, cmd, location, Sent);
      var request := s.effects[0].event;
      var reply := request["text" := Str(answer)]["reply_to" := request["identity"]];
      OnMessage(s.bridge, OUTPUT_TOPIC, reply) ==
        Handled([PrivMsg(if location == PUBMSG then Str(b.channel) else Str(sender), answer)])
  {
    var s := DoCommand(b, sender, cmd, location, Sent);
    var request := s.effects[0].event;
    assert request == s.bridge.context;
    assert request["media"] == b.context["media"];
  }

  /* ---------------------------------------------------------------------- */
  /* Nickname collision                                                     */
  /* ---------------------------------------------------------------------- */

  /** `on_nicknameinuse`: ask for the current nickname with an underscore
      appended. */
  function OnNicknameInUse(current: string): (effs: seq<Effect>)
    ensures |effs| == 1 && effs[0].ChangeNick?
    ensures |effs[0].nick| == |current| + 1
    ensures effs[0].nick[..|current|] == current && effs[0].nick[|current|] == '_'
  {
    [ChangeNick(current + "_")]
  }

  /** The NICK requests of a run of collisions, given the nickname the
      client library reports at each one. */
  function Collisions(reported: seq<string>): (effs: seq<Effect>)
    ensures |effs| == |reported|
    ensures forall i :: 0 <= i < |effs| ==> [effs[i]] == OnNicknameInUse(reported[i])
  {
    seq(|reported|, i requires 0 <= i < |reported| => OnNicknameInUse(reported[i])[0])
  }

  /** While the library keeps reporting the same nickname, every collision
      asks for the same longer nickname again. */
  lemma UnchangedNicknameRepeats(reported: seq<string>, nick: string)
    requires forall i :: 0 <= i < |reported| ==> reported[i] == nick
    ensures forall i :: 0 <= i < |reported| ==> Collisions(reported)[i] == ChangeNick(nick + "_")
  {
  }

  /** The nickname reported at the `k`-th collision after `nick` when the
      library reports, at each collision, the nickname the previous
      collision asked for. */
  function Retry(nick: string, k: nat): string
  {
    if k == 0 then nick else Retry(nick, k - 1) + "_"
  }

  /** When each collision reports the previous request, the nickname after
      `k` collisions is the original followed by `k` underscores. */
  lemma {:induction false} RetryAppends(nick: string, k: nat)
    ensures |Retry(nick, k)| == |nick| + k
    ensures Retry(nick, k)[..|nick|] == nick
    ensures forall i :: |nick| <= i < |nick| + k ==> Retry(nick, k)[i] == '_'
  {
    if k > 0 {
      RetryAppends(nick, k - 1);
      var prev := Retry(nick, k - 1);
      assert Retry(nick, k)[..|prev|] == prev;
      assert Retry(nick, k)[..|nick|] == prev[..|nick|];
      forall i | |nick| <= i < |nick| + k
        ensures Retry(nick, k)[i] == '_'
      {
        if i < |prev| {
          assert Retry(nick, k)[i] == Retry(nick, k)[..|prev|][i];
        }
      }
    }
  }

  /** When each collision reports the previous request, the retries never
      come back to an earlier nickname, not even one that differs only in
      case. */
  lemma RetriesDistinct(nick: string, j: nat, k: nat)
    requires j != k
    ensures Lower(Retry(nick, j)) != Lower(Retry(nick, k))
  {
    RetryAppends(nick, j);
    RetryAppends(nick, k);
    LowerFolds(Retry(nick, j));
    LowerFolds(Retry(nick, k));
  }

  /** Each reported nickname is the one the previous collision asked for. */
  predicate ReportsPreviousRequest(reported: seq<string>)
  {
    forall i, j :: 0 <= i < |reported| && j == i + 1 < |reported| ==> reported[j] == reported[i] + "_"
  }

  /** When each collision reports the previous request, the reported
      nicknames are the retries. */
  lemma {:induction false} ReportedIsRetry(reported: seq<string>, k: nat)
    requires ReportsPreviousRequest(reported) && k < |reported|
    ensures reported[k] == Retry(reported[0], k)
    decreases k
  {
    if k > 0 {
      ReportedIsRetry(reported, k - 1);
      assert reported[k] == reported[k - 1] + "_";
    }
  }

  /** When each collision reports the previous request, the `k`-th
      collision asks for the retry after the `k`-th reported nickname. */
  lemma ChainedRequest(reported: seq<string>, k: nat)
    requires ReportsPreviousRequest(reported) && k < |reported|
    ensures Collisions(reported)[k].nick == Retry(reported[0], k + 1)
  {
    ReportedIsRetry(reported, k);
  }

  /** When each collision reports the previous request, no two collisions
      ask for nicknames that fold together. */
  lemma ChainedRequestsDistinct(reported: seq<string>, i: nat, j: nat)
    requires ReportsPreviousRequest(reported) && i < |reported| && j < |reported| && i != j
    ensures Lower(Collisions(reported)[i].nick) != Lower(Collisions(reported)[j].nick)
  {
    var x, y := Collisions(reported)[i].nick, Collisions(reported)[j].nick;
    ChainedRequest(reported, i);
    ChainedRequest(reported, j);
    RetriesDistinct(reported[0], i + 1, j + 1);
    assert Lower(x) != Lower(y);
  }
}
