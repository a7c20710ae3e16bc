/**
  Worked cases of the routing rules, with the bot's nickname `nestor`.
 */
module Scenarios {
  import opened Text
  import opened Messages
  import opened IrcBot

  /** Addressing the bot on the channel yields the rest of the line as
      the command, whatever colons it holds. */
  lemma AddressedLine(cmd: string)
    requires Trimmed(cmd)
    ensures ChannelCommand("nestor", "nestor: " + cmd) == Command(cmd)
  {
    var nick, pad := "nestor", " ";
    assert nick + [':'] + pad + cmd == "nestor: " + cmd;
    AddressedWith(nick, nick, pad, cmd);
  }

  /** The lights example: the line dispatches `turn on the lights` from
      the channel. */
  lemma LightsExample(b: Bridge, sender: string, outcome: PublishOutcome)
    ensures OnPubMsg(b, "nestor", sender, "nestor: turn on the lights", outcome)
         == DoCommand(b, sender, "turn on the lights", PUBMSG, outcome)
  {
    var cmd := "turn on the lights";
    assert "nestor: turn on the lights" == "nestor: " + cmd;
    AddressedLine(cmd);
  }

  /** Only the first colon separates: later ones belong to the command. */
  lemma LaterColonsKept()
    ensures ChannelCommand("nestor", "nestor: a:b") == Command("a:b")
  {
    var cmd := "a:b";
    assert "nestor: a:b" == "nestor: " + cmd;
    AddressedLine(cmd);
  }

  /** The nickname is compared after case folding. */
  lemma AddressedInCapitals(cmd: string)
    requires Trimmed(cmd)
    ensures ChannelCommand("nestor", "NeStOr:" + cmd) == Command(cmd)
  {
    var name := "NeStOr";
    assert "NeStOr:" + cmd == name + [':'] + "" + cmd;
    MixedCaseFolds();
    AddressedWith("nestor", name, "", cmd);
  }

  lemma MixedCaseFolds()
    ensures Lower("NeStOr") == Lower("nestor")
  {
    LowerSame("NeStOr", "nestor");
  }

  /** The text before the colon is not trimmed, so a space before the
      colon means the line is not for the bot. */
  lemma SpaceBeforeColonIgnored(rest: string)
    ensures ChannelCommand("nestor", "nestor :" + rest) == Ignored
  {
    var text := "nestor :" + rest;
    assert text[..7] == "nestor ";
    assert |Lower("nestor ")| != |Lower("nestor")|;
    ChannelAddressing("nestor", text, 7);
  }

  /** A reply tagged with the channel location goes to the channel. */
  lemma ReplyToChannel(channel: string, ctx: Context)
    ensures OnMessage(Bridge(channel, ctx), OUTPUT_TOPIC,
                      map["text" := Str("Lights are on"), "location" := Str(PUBMSG), "media" := Str("irc")])
         == Handled([PrivMsg(Str(channel), "Lights are on")])
  {
  }

  /** A reply tagged with the private location goes to `reply_to`. */
  lemma ReplyToUser(channel: string, ctx: Context)
    ensures OnMessage(Bridge(channel, ctx), OUTPUT_TOPIC,
                      map["text" := Str("Done"), "location" := Str(PRIVMSG),
                          "reply_to" := Str("alice"), "media" := Str("irc")])
         == Handled([PrivMsg(Str("alice"), "Done")])
  {
  }
}
