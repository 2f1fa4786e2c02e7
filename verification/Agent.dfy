/** One game server's agent: what it reports to the hub and what it writes into the game
    (agent/agent.go). */
module Agent {
  import opened Bytes
  import opened Router
  import EchoCache
  import Sanitize
  import SanitizeProofs
  import SendQueue
  import opened Wrappers

  /** Who said what, wherever it came from. */
  datatype Line = Line(name: bytes, message: bytes)

  /** How chat arriving on a channel is injected. */
  datatype Inbound = Inbound(name: bytes, isEnabled: bool)

  function Key(l: Line): bytes {
    SanitizeProofs.EchoKey(l.name, l.message)
  }

  function Clean(isPrint: Sanitize.Table, l: Line): Line {
    Line(Sanitize.NameOf(l.name), Sanitize.MessageOf(isPrint, l.message))
  }

  predicate IsBlank(l: Line) {
    l.name == [] || l.message == []
  }

  /** Whether the agent reports a line it saw: it says something and is no echo. */
  predicate Reports(isPrint: Sanitize.Table, s: EchoCache.Echoes, now: int, raw: Line) {
    var l := Clean(isPrint, raw);
    !IsBlank(l) && !EchoCache.Suppresses(s, Key(l), now)
  }

  /** Looking a line up uses its entry up. */
  function AfterLookup(isPrint: Sanitize.Table, s: EchoCache.Echoes, raw: Line): EchoCache.Echoes {
    var l := Clean(isPrint, raw);
    if IsBlank(l) then s else EchoCache.Consumed(s, Key(l))
  }

  function Reported(serverKey: string, id: string, channel: bytes, l: Line): Event {
    Event(id, serverKey, channel, l.name, l.message, 0)
  }

  /** Channel names are not required to be distinct: the first one decides. */
  predicate IsOpen(channels: seq<Inbound>, name: bytes) {
    channels != [] && if channels[0].name == name then channels[0].isEnabled else IsOpen(channels[1..], name)
  }

  /** The line an event from the hub puts into the game, if any. `rendered` is the console
      command the channel's template makes of it, or None when the template fails. */
  function Injected(isPrint: Sanitize.Table, serverKey: string, channels: seq<Inbound>, e: Event,
                    rendered: Option<bytes>): Option<Line> {
    var l := Clean(isPrint, Line(e.name, e.message));
    if e.origin != serverKey && IsOpen(channels, e.channel) && !IsBlank(l)
       && rendered.Some? && Sanitize.IsSafeTelnetLine(rendered.value)
    then Some(l) else None
  }

  class Agent {
    const serverKey: string
    const isPrint: Sanitize.Table
    const channels: seq<Inbound>
    const echo: EchoCache.Cache
    const out: SendQueue.Outbound<Event>

    constructor (serverKey: string, channels: seq<Inbound>, isPrint: Sanitize.Table)
      ensures this.serverKey == serverKey && this.channels == channels && this.isPrint == isPrint
      ensures fresh(echo) && echo.State() == EchoCache.Fresh(15_000_000_000)
      ensures fresh(out) && out.Valid() && out.capacity == 512 && out.out == [] && !out.done
    {
      this.serverKey, this.channels, this.isPrint := serverKey, channels, isPrint;
      echo := new EchoCache.Cache(15_000_000_000);
      out := new SendQueue.Outbound(512);
    }

    /** Reports a line seen in the game, unless it is the echo of one injected here. */
    method Publish(channel: bytes, name: bytes, message: bytes, id: string, now: int)
      returns (reported: bool)
      requires out.Valid()
      modifies echo, out
      ensures out.Valid()
      ensures reported == Reports(isPrint, old(echo.State()), now, Line(name, message))
      ensures echo.State() == AfterLookup(isPrint, old(echo.State()), Line(name, message))
      ensures var event := Reported(serverKey, id, channel, Clean(isPrint, Line(name, message)));
              out.out == if reported then SendQueue.Newest(old(out.out) + [event], out.capacity) else old(out.out)
      ensures out.dropped == old(out.dropped) + if reported then |old(out.out)| + 1 - |out.out| else 0
      ensures reported ==>
                && out.out != []
                && var e := out.out[|out.out| - 1];
                   && e.name == Sanitize.NameOf(name) && e.message == Sanitize.MessageOf(isPrint, message)
                   && e.channel == channel && e.origin == serverKey && e.id == id && e.hop == 0
    {
      hide Sanitize.NameOf, Sanitize.MessageOf, SendQueue.Newest;
      var cleanName := Sanitize.Name(name);
      var cleanMessage := CleanMessage(message);
      if cleanName == [] || cleanMessage == [] {
        return false;
      }
      var isEcho := echo.IsEcho(cleanName + [0] + cleanMessage, now);
      if isEcho {
        return false;
      }
      var event := Event(id, serverKey, channel, cleanName, cleanMessage, 0);
      SendQueue.NewestKeepsLast(out.out, event, out.capacity);
      out.Enqueue(event);
      return true;
    }

    method CleanMessage(message: bytes) returns (out: bytes)
      ensures out == Sanitize.MessageOf(isPrint, message)
    {
      out := Sanitize.TelnetLine(isPrint, message, Sanitize.MAX_MESSAGE_LEN);
    }

    method LookUp(name: bytes) returns (isOpen: bool)
      ensures isOpen == IsOpen(channels, name)
    {
      for i := 0 to |channels|
        invariant IsOpen(channels[i..], name) == IsOpen(channels, name)
      {
        if channels[i].name == name {
          return channels[i].isEnabled;
        }
      }
      return false;
    }

    /** The command to write into the game for an event from the hub. What is injected is
        remembered before it is sent. */
    method Inject(e: Event, rendered: Option<bytes>, pruneAt: int, now: int)
      returns (command: Option<bytes>)
      modifies echo
      ensures var l := Injected(isPrint, serverKey, channels, e, rendered);
              && command == (if l.Some? then rendered else None)
              && echo.State() == if l.Some?
                                 then EchoCache.Remembered(old(echo.State()), Key(l.value), pruneAt, now)
                                 else old(echo.State())
    {
      hide Sanitize.NameOf, Sanitize.MessageOf, EchoCache.Remembered;
      if e.origin == serverKey {
        return None;
      }
      var isOpen := LookUp(e.channel);
      if !isOpen {
        return None;
      }
      var name := Sanitize.Name(e.name);
      var message := CleanMessage(e.message);
      if name == [] || message == [] || rendered.None? {
        return None;
      }
      if !Sanitize.IsSafeTelnetLine(rendered.value) {
        return None;
      }
      echo.Remember(name + [0] + message, pruneAt, now);
      return rendered;
    }
  }

  // ----- what an agent injects -----

  /** The first channel of a name decides whether it is open. */
  ghost predicate IsOpened(channels: seq<Inbound>, name: bytes) {
    exists i :: 0 <= i < |channels| && channels[i].name == name && channels[i].isEnabled
                && forall j :: 0 <= j < i ==> channels[j].name != name
  }

  lemma {:induction false} OpenExactly(channels: seq<Inbound>, name: bytes)
    ensures IsOpen(channels, name) <==> IsOpened(channels, name)
  {
    if channels != [] && channels[0].name != name {
      OpenExactly(channels[1..], name);
      if IsOpened(channels[1..], name) {
        var i :| 0 <= i < |channels[1..]| && channels[1..][i].name == name && channels[1..][i].isEnabled
                 && forall j :: 0 <= j < i ==> channels[1..][j].name != name;
        assert channels[i + 1].name == name;
      }
      if IsOpened(channels, name) {
        var i :| 0 <= i < |channels| && channels[i].name == name && channels[i].isEnabled
                 && forall j :: 0 <= j < i ==> channels[j].name != name;
        assert channels[1..][i - 1].name == name;
      }
    }
  }

  /** An event is injected exactly when it comes from another server, its channel is open, its name
      and its message leave something when sanitized, and its template makes a safe command; and
      what is injected is the sanitized line. */
  lemma InjectedExactly(isPrint: Sanitize.Table, serverKey: string, channels: seq<Inbound>, e: Event,
                        rendered: Option<bytes>)
    ensures var l := Injected(isPrint, serverKey, channels, e, rendered);
            && (l.Some? <==> && e.origin != serverKey && IsOpened(channels, e.channel)
                             && Sanitize.NameOf(e.name) != [] && Sanitize.MessageOf(isPrint, e.message) != []
                             && rendered.Some? && 0x0A !in rendered.value && 0x0D !in rendered.value
                             && 0 !in rendered.value && |rendered.value| <= 8192)
            && (l.Some? ==> l.value.name == Sanitize.NameOf(e.name)
                            && l.value.message == Sanitize.MessageOf(isPrint, e.message))
  {
    hide Sanitize.NameOf, Sanitize.MessageOf, IsOpen, IsOpened;
    OpenExactly(channels, e.channel);
  }

  /** A line is reported exactly when sanitizing leaves a name and a message and no unexpired entry
      of the echo cache has their key. */
  lemma ReportsExactly(isPrint: Sanitize.Table, s: EchoCache.Echoes, now: int, raw: Line)
    ensures var name, message := Sanitize.NameOf(raw.name), Sanitize.MessageOf(isPrint, raw.message);
            var key := name + [0] + message;
            Reports(isPrint, s, now, raw)
            <==> name != [] && message != [] && (key in s.expiry ==> s.expiry[key] <= now)
  {
    hide Sanitize.NameOf, Sanitize.MessageOf;
  }
}
