# IRC bridge routing model

A Dafny model of the message-routing layer of the Domogik IRC interface
(`bin/ircbot.py`). This bot sits between an IRC channel and the Domogik
message bus. It decides which IRC lines are commands for the butler, what
it publishes on the `interface.input` topic, what it tells the sender,
how replies arriving on `interface.output` are routed back to IRC, and
which nickname it asks for after a collision.

Each handler is a pure function. It returns the bridge's new state (the
configured channel and the shared context dictionary) and the effects it
performs, in order:

- `Notice`: an IRC notice.
- `PrivMsg`: an IRC message.
- `Publish`: an event on the bus.
- `ChangeNick`: a NICK request.
- `Disconnect` and `Die`.
- `Warn`: the invalid-location warning.

Modules:

- `Text` (`text.dfy`): the string operations the handlers use.
  - `Find` and `SplitOnce` model Python's `str.find` and `str.split(":", 1)`.
  - `Split` and `Join` model `str.split("\n")`, which is applied to the traceback.
  - `Strip` models Python 3's `str.strip()`.
  - `FoldChar` and `Lower` model the IRC case mapping of section 2.2 of RFC 1459.
- `Messages` (`messages.dfy`): the location tags `PUBMSG` and `PRIVMSG`, the topics, the notice texts, dictionary values (`Null` | `Str`), the context template and the effects.
- `IrcBot` (`ircbot.dfy`): `DoCommand`, `OnPrivMsg`, `ChannelCommand`/`OnPubMsg`, `OnMessage` and `OnNicknameInUse`, with lemmas about them.
- `Session` (`session.dfy`): a sequence of IRC lines handled in order, starting from the context template, and the invariants that hold over it.
- `Scenarios` (`scenarios.dfy`): worked cases with the nickname `nestor`.

Modelling choices:

- The context is a `map<string, Value>`, as in the source's dictionary.
  - The source writes every request into that one shared dictionary (`request = self.context`). So the request stays in the context after the handler returns, even when the publish fails, because the dictionary is written before the publish.
  - `DoCommand` returns the written context as the new state.
- The publish outcome is a parameter: `Sent`, or `Failed(trace)`. `trace` is the traceback text. The failure report sends one notice per line of `trace` split on `"\n"`.
- `OnMessage` returns `KeyError(key)` when the source's dictionary lookup would raise `KeyError`. The lookups happen in the source's order: `media`, then `location`, then `text` for `PUBMSG`, or `reply_to` before `text` for `PRIVMSG`.
- `"{0}".format(v)` is `Render`: a string is unchanged and `None` becomes `"None"`.
- The bot's current nickname, which the source reads from the connection, is an input to `OnPubMsg`.

## Model

| member | source | states |
|---|---|---|
| Text.Find | bin/ircbot.py:189 | the index returned is -1 exactly when the character does not occur; otherwise it holds the character and no earlier index does |
| Text.SplitOnce | bin/ircbot.py:189 | splitting on the first colon gives one piece exactly when there is no colon; otherwise the first piece has no colon and the two pieces glue back to the text around that colon |
| Text.SplitOnceAtFirst | bin/ircbot.py:189 | for any index holding the first colon, the pieces are the text before it and everything after it |
| Text.FindIsFirst | bin/ircbot.py:189 | the first occurrence of a character is unique, so the split point is fully determined |
| Text.Strip | bin/ircbot.py:191 | the stripped command is a slice of the input with only whitespace cut off at both ends, and neither of its ends is whitespace |
| Text.StripPadded | bin/ircbot.py:191 | any trimmed text between two runs of whitespace strips to exactly that text, so the result of the strip is unique |
| Text.StripIdempotent | bin/ircbot.py:191 | stripping an already stripped command changes nothing |
| Text.Split | bin/ircbot.py:231 | the traceback splits into at least one line, no line contains a newline, and joining the lines with newlines gives back the traceback |
| Text.SplitJoin | bin/ircbot.py:231 | splitting inverts joining for any non-empty list of newline-free lines |
| Text.FoldChar | bin/ircbot.py:190 | the RFC 1459 table: A-Z map to a-z, `[`, `]` and backslash map to `{`, `}` and the vertical bar, and every other character is unchanged; a folded character is never upper case |
| Text.Lower | bin/ircbot.py:190 | folding a nickname keeps its length; what each character becomes is stated by `LowerAt` |
| Text.LowerAt | bin/ircbot.py:190 | nicknames are folded position by position |
| Text.LowerFolds | bin/ircbot.py:190 | folding keeps the length, yields a folded string, leaves folded strings alone and is idempotent |
| Text.LowerSame | bin/ircbot.py:190 | two strings fold equal exactly when they have the same length and fold equal character by character |
| IrcBot.DoCommand | bin/ircbot.py:202-232 | `disconnect` gives exactly `[Disconnect]` and `die` exactly `[Die]`, with the state unchanged. Any other command writes `text`, `identity` and `location` into the context, keeps every other key and its value, and adds no other key. On success it publishes that context on `interface.input` and then sends the success notice. On failure it sends only the failure report to the sender |
| IrcBot.FailureNotices | bin/ircbot.py:227-232 | every effect is a notice to the sender. The first names the command, the second is `The reason is :`, and the rest are newline-free lines that join back to the traceback |
| IrcBot.Stamp | bin/ircbot.py:218-221 | the request overwrites exactly `text`, `identity` and `location`; every other key keeps its value |
| IrcBot.DispatchOutcomes | bin/ircbot.py:211-232 | dispatch always has an effect. A reserved command never publishes or sends anything. Any other command publishes exactly once when the bus accepts it and never when it fails, and never disconnects or kills the bot |
| IrcBot.OnPrivMsg | bin/ircbot.py:182-184 | the channel never changes; a reserved command leaves the state alone; any other private message is written into the context verbatim, with the sender as identity and the private location |
| IrcBot.PrivateDispatch | bin/ircbot.py:182-184 | a private message is dispatched with its text unchanged and location `PRIVMSG` |
| IrcBot.ChannelCommand | bin/ircbot.py:186-192 | a channel line without a colon is never a command, and a command is always free of surrounding whitespace |
| IrcBot.OnPubMsg | bin/ircbot.py:186-192 | a channel line has no effect at all exactly when it is not addressed to the bot. The channel never changes. An addressed reserved command leaves the state alone; any other addressed command is written into the context with the sender as identity and location `PUBMSG` |
| IrcBot.PublicDispatch | bin/ircbot.py:189-191 | a channel line that carries a command is dispatched with exactly that command and location `PUBMSG` |
| IrcBot.ChannelAddressing | bin/ircbot.py:189-191 | a line is a command exactly when the untrimmed text before its first colon folds to the current nickname; the command is then everything after that colon, stripped, with later colons kept |
| Messages.Render | bin/ircbot.py:246-251 | a string value is written as it stands, and `None` as `None` |
| IrcBot.OnMessage | bin/ircbot.py:234-251 | other topics and non-irc media produce nothing. A missing `media`, `location`, `text` or `reply_to` is reported as that key's `KeyError`, in the order the source reads them, and a `KeyError` only ever names a missing key. At most one effect occurs. A message goes out only for the output topic with irc media and a known location: to the channel for `PUBMSG` and to `reply_to` for `PRIVMSG`, with the reply's text. Any other location produces only the warning naming it |
| IrcBot.ReplyRouting | bin/ircbot.py:243-251 | an irc reply on the output topic with the keys its location needs produces exactly one message to the channel or to `reply_to`. An unknown location produces exactly the warning naming it and no send, whatever other keys the reply has |
| IrcBot.ReplyReturnsToOrigin | bin/ircbot.py:218-249 | a reply built from a published request, with its identity as `reply_to`, goes back to the channel for a channel request and to the sender for a private one |
| IrcBot.OnNicknameInUse | bin/ircbot.py:174-176 | a collision produces one NICK request, for a nickname one character longer whose prefix is the old nickname and whose last character is `_` |
| IrcBot.Collisions | bin/ircbot.py:174-176 | one NICK request per collision, each for the nickname the library reports at that collision plus `_` |
| IrcBot.UnchangedNicknameRepeats | bin/ircbot.py:174-176 | while the library keeps reporting the same nickname, every collision asks for that nickname plus `_` again, so a refused request is asked for again |
| IrcBot.RetryAppends | bin/ircbot.py:174-176 | if the library reports, at each collision, the nickname the previous collision asked for, the nickname after `k` collisions is the original followed by `k` underscores |
| IrcBot.RetriesDistinct | bin/ircbot.py:174-176 | if the library reports, at each collision, the nickname the previous collision asked for, no two retries fold to the same nickname |
| IrcBot.ReportedIsRetry | bin/ircbot.py:174-176 | if the library reports, at each collision, the nickname the previous collision asked for, the `k`-th reported nickname is the original followed by `k` underscores |
| IrcBot.ChainedRequestsDistinct | bin/ircbot.py:174-176 | if the library reports, at each collision, the nickname the previous collision asked for, no two collisions ask for nicknames that fold together |
| Session.TemplateWellFormed | bin/ircbot.py:83-88 | the template satisfies the session invariant: irc media, mood and sex `None`, location unset |
| Session.DispatchKeepsContext | bin/ircbot.py:216-223 | dispatching from a well-formed context keeps media `irc`, mood and sex `None`, and the location unset or one of the two tags. Every publish carries the input topic, a well-formed context and a known location |
| Session.Run | bin/ircbot.py:107-109 | over a session the channel never changes, and the first message's effects come first, before any later one's |
| Session.RunKeepsContext | bin/ircbot.py:182-232 | over any sequence of IRC lines the channel never changes and the shared context stays well formed. Every request published carries irc media and one of the two location tags |
| Session.DieIsLast | bin/ircbot.py:213-214 | in a session, `die` occurs at most once and is always the last effect |
| IrcBot.AddressedWith | bin/ircbot.py:189-191 | a name that folds to the nickname, a colon, any whitespace and a trimmed command always yield exactly that command |
| Scenarios.AddressedLine | bin/ircbot.py:188-191 | `nestor: <cmd>` yields the command `<cmd>`, whatever colons it holds |
| Scenarios.LightsExample | bin/ircbot.py:186-191 | `nestor: turn on the lights` dispatches `turn on the lights` from the channel |
| Scenarios.LaterColonsKept | bin/ircbot.py:189-191 | `nestor: a:b` yields the command `a:b` |
| Scenarios.AddressedInCapitals | bin/ircbot.py:190 | `NeStOr:<cmd>` yields `<cmd>` when the nickname is `nestor` |
| Scenarios.SpaceBeforeColonIgnored | bin/ircbot.py:188-190 | `nestor :<anything>` is ignored, because the text before the colon is not trimmed |
| Scenarios.ReplyToChannel | bin/ircbot.py:246-247 | a public reply `Lights are on` goes to the configured channel |
| Scenarios.ReplyToUser | bin/ircbot.py:248-249 | a private reply `Done` with `reply_to` `alice` goes to `alice` |

## Left out

- `IrcInterface.__init__` (bin/ircbot.py:59-119): static configuration and startup wiring. Only its context template is kept, as `TEMPLATE`.
- The bus transport: `MQPub`, `MQAsyncSub`, the ZeroMQ context and the IOLoop thread (bin/ircbot.py:146-161). Publishing is an effect, and its outcome is a parameter.
- The IRC client library: connection, reconnection, joining the channel on welcome (bin/ircbot.py:178-180) and the event objects. The sender and the text are plain strings. The current nickname is an input, because the library decides when a NICK request takes effect.
- The DCC handlers (bin/ircbot.py:194-200). They only print.
- `get_sanitized_hostname` (bin/ircbot.py:169-172). It is a stub.
- All printed logging except the invalid-location warning.
- Concurrency: the IRC loop and the bus loop run on different threads. Each handler is modelled as one atomic step.
- The contents of tracebacks. The traceback text is an input.
- IrcBot.DoCommand: only a failure of the publish is modelled. If the success notice itself raised inside the `try`, the source would also send the failure report. That case is not covered.
- IrcBot.OnMessage: dictionary values are only strings or `None`. Numbers, lists and nested dictionaries are not modelled. What happens after a `KeyError` escapes the callback is not modelled either.
- Text.Lower: only the RFC 1459 mapping of A-Z and `[]\` to a-z and `{}|` is modelled. Anything more the IRC library's `irc.strings.lower` does (other characters, other case mappings) is not claimed.
- Text.Strip: follows Python 3's whitespace set. A Python 2 byte-string strip, which removes only ASCII whitespace, is not modelled.
- IrcBot.RetryAppends: holds only if the library reports, at each collision, the nickname the previous collision asked for. The source never makes that so: it appends `_` to whatever `get_nickname()` reports. `IrcBot.UnchangedNicknameRepeats` states the case where the reported nickname does not change.
- IrcBot.RetriesDistinct: holds only under the same assumption: that the library reports, at each collision, the nickname the previous collision asked for. If the reported nickname does not change, the same request repeats.
- Python 3 text semantics: every string is a Python 3 `str`. Under Python 2, `"{0}".format(x)` with non-ASCII unicode text raises `UnicodeEncodeError`. That would happen at the prints at bin/ircbot.py:183 and 187, before any dispatch. It would also happen at the failure notice at line 229, inside the `except`, so the error escapes the handler, at the reply formatting at lines 247 and 249, and at the invalid-location warning at line 251. None of these raises is modelled.
- Session.Run: a `die` command ends the session. A `disconnect` command does not, because the client library reconnects on its own.

Points of the code the model keeps as they are:

- The channel rule compares the text before the first colon as it stands, without trimming it, and needs no space after the colon. So `nestor : foo`, the form the comment at bin/ircbot.py:188 gives, is ignored, and `nestor:foo` is a command.
- The bridge publishes the whole shared context, not a fresh event, and the template's `mood` and `sex` are `None`.
- Replies whose `media` is not `irc` are dropped.
