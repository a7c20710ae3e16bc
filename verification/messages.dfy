/**
  The values the bridge exchanges: the context dictionary it publishes on
  the bus, the dictionaries it receives back, and the effects its handlers
  have on the IRC connection, the bus and the process.
 */
module Messages {

  /** Location tag of a request that came from the channel. */
  const PUBMSG: string := "irc public message"
  /** Location tag of a request that came from a private message. */
  const PRIVMSG: string := "irc private message"

  /** Bus topic of the requests the bridge publishes. */
  const INPUT_TOPIC: string := "interface.input"
  /** Bus topic of the replies the bridge relays. */
  const OUTPUT_TOPIC: string := "interface.output"

  const SUCCESS_NOTICE: string := "Request sent over MQ with success"
  const FAILURE_NOTICE: string := "Unable to send your request over the MQ : "
  const REASON_NOTICE: string := "The reason is :"
  const LOCATION_WARNING: string := "WARNING Invalid location received for irc media : "

  /** A dictionary value: Python's `None` or a string. */
  datatype Value = Null | Str(s: string)

  /** A bus message body: a dictionary from key names to values. */
  type Context = map<string, Value>

  /** The context template the bridge starts from. */
  const TEMPLATE: Context := map[
    "media" := Str("irc"),
    "location" := Null,
    "identity" := Null,
    "mood" := Null,
    "sex" := Null
  ]

  /** Python's `"{0}".format(v)` for a dictionary value: a string as it
      stands, and `None` as its name. */
  function Render(v: Value): (r: string)
    ensures v.Str? ==> r == v.s
    ensures v == Null ==> r == "None"
  {
    match v
    case Null => "None"
    case Str(s) => s
  }

  /** One observable action of a handler, in the order it happens. */
  datatype Effect =
    | Notice(nick: string, text: string)     // IRC NOTICE to a user
    | PrivMsg(target: Value, text: string)   // IRC PRIVMSG to a channel or a user
    | Publish(topic: string, event: Context) // event sent on the bus
    | ChangeNick(nick: string)               // IRC NICK request
    | Disconnect                             // leave the server (the client library reconnects)
    | Die                                    // leave the server and stop handling IRC messages
    | Warn(text: string)                     // warning written to the log

  /** What a handler did: its effects, or the key whose lookup raised
      `KeyError` before the handler finished. */
  datatype Handled = Handled(effects: seq<Effect>) | KeyError(key: string)

  /** An effect that writes to the IRC connection. */
  predicate IsSend(e: Effect)
  {
    e.Notice? || e.PrivMsg?
  }
}
