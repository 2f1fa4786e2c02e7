/** Where an event goes (hub/router.go), and the event itself (relay/event.go). */
module Router {
  import opened Bytes
  import SeenCache
  import opened Wrappers

  const ORIGIN_DISCORD: string := "discord"

  /** One chat line on the wire. Identifiers and server keys are opaque strings. */
  datatype Event = Event(
    id: string, origin: string, channel: bytes, name: bytes, message: bytes, hop: nat)

  datatype Channel = Channel(
    name: bytes, isEnabled: bool, isCrossServer: bool, discordChannel: string)

  datatype Refusal = Invalid | Duplicate | AlreadyRelayed | NoChannel | Disabled | RenderFailed

  /** A text for a Discord channel. */
  datatype Post = Post(channel: string, text: string)

  /** The deliveries for one event, in Discord and to servers. */
  datatype Outcome =
    | Plan(discord: Option<Post>, targets: seq<string>)
    | Refused(why: Refusal)

  /** The bounds every event from a peer must keep. */
  predicate IsValid(e: Event) {
    && 0 < |e.channel| <= 64
    && 0 < |e.name| <= 64
    && 0 < |e.message| <= 4000
    && e.hop <= 4
  }

  function FindChannel(channels: seq<Channel>, name: bytes): Option<Channel> {
    if channels == [] then None
    else if channels[0].name == name then Some(channels[0])
    else FindChannel(channels[1..], name)
  }

  /** The connected servers but the origin, in their order. */
  function Others(connected: seq<string>, origin: string): seq<string> {
    if connected == [] then []
    else
      var n := |connected| - 1;
      Others(connected[..n], origin) + if connected[n] == origin then [] else [connected[n]]
  }

  predicate IsMirrored(e: Event, ch: Channel) {
    ch.discordChannel != "" && e.origin != ORIGIN_DISCORD
  }

  /** `rendered` is what the channel's Discord template makes of the event, or None when it
      fails. */
  function Decide(seen: SeenCache.Seen, channels: seq<Channel>, e: Event, connected: seq<string>,
                  call: SeenCache.Call, rendered: Option<string>): Outcome {
    if !IsValid(e) then Refused(Invalid)
    else if SeenCache.IsDuplicate(seen, call) then Refused(Duplicate)
    else if e.hop > 0 then Refused(AlreadyRelayed)
    else
      match FindChannel(channels, e.channel)
      case None => Refused(NoChannel)
      case Some(ch) =>
        if !ch.isEnabled then Refused(Disabled)
        else if IsMirrored(e, ch) && rendered.None? then Refused(RenderFailed)
        else
          Plan(if IsMirrored(e, ch) && rendered.value != "" then Some(Post(ch.discordChannel, rendered.value))
               else None,
               if ch.isCrossServer || e.origin == ORIGIN_DISCORD then Others(connected, e.origin) else [])
  }

  /** Only a valid event reaches the duplicate filter. */
  function SeenAfter(seen: SeenCache.Seen, e: Event, call: SeenCache.Call): SeenCache.Seen {
    if IsValid(e) then SeenCache.After(seen, call) else seen
  }

  class Routes {
    var channels: seq<Channel>
    const seen: SeenCache.Cache

    constructor (channels: seq<Channel>, now: int)
      ensures this.channels == channels && fresh(seen)
      ensures seen.State() == SeenCache.Fresh(30_000_000_000, now)
    {
      this.channels := channels;
      seen := new SeenCache.Cache(30_000_000_000, now);
    }

    method SetChannels(channels: seq<Channel>)
      modifies this`channels
      ensures this.channels == channels
    {
      this.channels := channels;
    }

    method FindByName(name: bytes) returns (found: Option<Channel>)
      ensures found == FindChannel(channels, name)
    {
      for i := 0 to |channels|
        invariant FindChannel(channels[i..], name) == FindChannel(channels, name)
      {
        if channels[i].name == name {
          return Some(channels[i]);
        }
      }
      return None;
    }

    method Route(e: Event, connected: seq<string>, first: int, second: int, rendered: Option<string>)
      returns (plan: Outcome)
      modifies seen
      ensures plan == Decide(old(seen.State()), channels, e, connected,
                             SeenCache.Call(e.id, first, second), rendered)
      ensures seen.State() == SeenAfter(old(seen.State()), e, SeenCache.Call(e.id, first, second))
    {
      if !IsValid(e) {
        return Refused(Invalid);
      }
      var duplicate := seen.SeenBefore(e.id, first, second);
      if duplicate {
        return Refused(Duplicate);
      }
      if e.hop > 0 {
        return Refused(AlreadyRelayed);
      }
      var found := FindByName(e.channel);
      if found.None? {
        return Refused(NoChannel);
      }
      var ch := found.value;
      if !ch.isEnabled {
        return Refused(Disabled);
      }
      var discord: Option<Post> := None;
      var isFromDiscord := e.origin == ORIGIN_DISCORD;
      if ch.discordChannel != "" && !isFromDiscord {
        if rendered.None? {
          return Refused(RenderFailed);
        }
        if rendered.value != "" {
          discord := Some(Post(ch.discordChannel, rendered.value));
        }
      }
      var targets := [];
      if ch.isCrossServer || isFromDiscord {
        for i := 0 to |connected|
          invariant targets == Others(connected[..i], e.origin)
        {
          assert connected[..i + 1][..i] == connected[..i];
          if connected[i] == e.origin {
            continue;
          }
          targets := targets + [connected[i]];
        }
        assert connected[..|connected|] == connected;
      }
      return Plan(discord, targets);
    }
  }

  /** Targets are exactly the connected servers other than the origin, each as often as it is
      connected. */
  lemma {:induction false} OthersExactly(connected: seq<string>, origin: string, key: string)
    ensures multiset(Others(connected, origin))[key]
            == if key == origin then 0 else multiset(connected)[key]
  {
    if connected != [] {
      var n := |connected| - 1;
      OthersExactly(connected[..n], origin, key);
      assert connected == connected[..n] + [connected[n]];
    }
  }

  /** Only an event that has not been relayed yet is accepted, and never towards its origin. */
  lemma AcceptedMeansFirstHop(seen: SeenCache.Seen, channels: seq<Channel>, e: Event,
                              connected: seq<string>, call: SeenCache.Call, rendered: Option<string>)
    requires Decide(seen, channels, e, connected, call, rendered).Plan?
    ensures e.hop == 0 && IsValid(e)
    ensures e.origin !in Decide(seen, channels, e, connected, call, rendered).targets
  {
    OthersExactly(connected, e.origin, e.origin);
  }

  // ----- what a decision comes down to -----

  /** The first channel of a name decides, whatever comes after it. */
  ghost predicate IsFirstOfName(channels: seq<Channel>, i: nat, name: bytes) {
    i < |channels| && channels[i].name == name && forall j :: 0 <= j < i ==> channels[j].name != name
  }

  lemma {:induction false} FoundIsFirst(channels: seq<Channel>, name: bytes) returns (i: nat)
    ensures FindChannel(channels, name).None? ==> forall j :: 0 <= j < |channels| ==> channels[j].name != name
    ensures FindChannel(channels, name).Some? ==>
              IsFirstOfName(channels, i, name) && FindChannel(channels, name) == Some(channels[i])
  {
    i := 0;
    if channels != [] && channels[0].name != name {
      var k := FoundIsFirst(channels[1..], name);
      i := k + 1;
    }
  }

  lemma FirstIsFound(channels: seq<Channel>, i: nat, name: bytes)
    requires IsFirstOfName(channels, i, name)
    ensures FindChannel(channels, name) == Some(channels[i])
  {
    var j := FoundIsFirst(channels, name);
  }

  ghost predicate HasBounds(e: Event) {
    0 < |e.channel| <= 64 && 0 < |e.name| <= 64 && 0 < |e.message| <= 4000 && e.hop <= 4
  }

  /** The identifier is in the newer generation, or in the older one and no rotation is due. */
  ghost predicate IsKnown(seen: SeenCache.Seen, call: SeenCache.Call) {
    call.id != "" && (call.id in seen.current || (call.id in seen.previous && call.first <= seen.rotateAt))
  }

  /** The first channel of the event's name accepts it: it is enabled and, if the event has to be
      shown in Discord, its template yields something. */
  ghost predicate IsTaken(channels: seq<Channel>, i: nat, e: Event, rendered: Option<string>) {
    && IsFirstOfName(channels, i, e.channel) && channels[i].isEnabled
    && (channels[i].discordChannel != "" && e.origin != "discord" ==> rendered.Some?)
  }

  /** An event is accepted if and only if it keeps the bounds, has not been seen, has not been
      relayed before, and the first channel of its name takes it. */
  ghost predicate IsAcceptable(seen: SeenCache.Seen, channels: seq<Channel>, e: Event, call: SeenCache.Call,
                               rendered: Option<string>)
  {
    HasBounds(e) && !IsKnown(seen, call) && e.hop == 0 && exists i: nat :: IsTaken(channels, i, e, rendered)
  }

  lemma AcceptedExactly(seen: SeenCache.Seen, channels: seq<Channel>, e: Event, connected: seq<string>,
                        call: SeenCache.Call, rendered: Option<string>)
    ensures Decide(seen, channels, e, connected, call, rendered).Plan?
            <==> IsAcceptable(seen, channels, e, call, rendered)
  {
    var k := FoundIsFirst(channels, e.channel);
    if i: nat :| IsTaken(channels, i, e, rendered) {
      FirstIsFound(channels, i, e.channel);
    }
    if Decide(seen, channels, e, connected, call, rendered).Plan? {
      assert IsTaken(channels, k, e, rendered);
    }
  }

  /** The refusals, each for the first reason there is. */
  lemma RefusedExactly(seen: SeenCache.Seen, channels: seq<Channel>, e: Event, connected: seq<string>,
                       call: SeenCache.Call, rendered: Option<string>)
    ensures var d := Decide(seen, channels, e, connected, call, rendered);
            var isNew := HasBounds(e) && !IsKnown(seen, call);
            && (d == Refused(Invalid) <==> !HasBounds(e))
            && (d == Refused(Duplicate) <==> HasBounds(e) && IsKnown(seen, call))
            && (d == Refused(AlreadyRelayed) <==> isNew && e.hop > 0)
            && (d == Refused(NoChannel) <==>
                  isNew && e.hop == 0 && forall j :: 0 <= j < |channels| ==> channels[j].name != e.channel)
            && (d == Refused(Disabled) <==>
                  isNew && e.hop == 0
                  && exists i: nat :: IsFirstOfName(channels, i, e.channel) && !channels[i].isEnabled)
    ensures !HasBounds(e) ==> SeenAfter(seen, e, call) == seen
    ensures HasBounds(e) && call.id != "" ==>
              var t := SeenAfter(seen, e, call); call.id in t.current || call.id in t.previous
  {
    var k := FoundIsFirst(channels, e.channel);
    if i: nat :| IsFirstOfName(channels, i, e.channel) && !channels[i].isEnabled {
      FirstIsFound(channels, i, e.channel);
    }
  }

  /** The targets of an accepted event: every connected server but the origin, when the channel
      links servers or the event comes from Discord, and none otherwise. */
  lemma TargetsExactly(seen: SeenCache.Seen, channels: seq<Channel>, e: Event, connected: seq<string>,
                       call: SeenCache.Call, rendered: Option<string>, i: nat, key: string)
    requires IsAcceptable(seen, channels, e, call, rendered) && IsFirstOfName(channels, i, e.channel)
    ensures var d := Decide(seen, channels, e, connected, call, rendered);
            && d.Plan?
            && (key in d.targets <==>
                  key in connected && key != e.origin && (channels[i].isCrossServer || e.origin == "discord"))
            && multiset(d.targets)[key] == if key in d.targets then multiset(connected)[key] else 0
  {
    AcceptedExactly(seen, channels, e, connected, call, rendered);
    FirstIsFound(channels, i, e.channel);
    OthersExactly(connected, e.origin, key);
    var t := Others(connected, e.origin);
    assert key in t <==> multiset(t)[key] > 0;
    assert key in connected <==> multiset(connected)[key] > 0;
  }

  /** What an accepted event shows in Discord: what its template yields, when the channel has a
      Discord channel, the event does not come from there and there is something to show. */
  lemma ShownExactly(seen: SeenCache.Seen, channels: seq<Channel>, e: Event, connected: seq<string>,
                     call: SeenCache.Call, rendered: Option<string>, i: nat)
    requires IsAcceptable(seen, channels, e, call, rendered) && IsFirstOfName(channels, i, e.channel)
    ensures var d := Decide(seen, channels, e, connected, call, rendered);
            && d.Plan?
            && (d.discord.Some? <==>
                  channels[i].discordChannel != "" && e.origin != "discord" && rendered != Some(""))
            && (d.discord.Some? ==>
                  d.discord.value.channel == channels[i].discordChannel && rendered == Some(d.discord.value.text))
  {
    AcceptedExactly(seen, channels, e, connected, call, rendered);
    FirstIsFound(channels, i, e.channel);
  }
}
