/**
  The particle adapter for server revision 1_17_R1: how `play` turns the
  requested particle name into a catalog entry (exact enum name first, then
  the first entry containing the name case-insensitively, else failure) and
  the single world-particles packet it sends to the requesting player.

  The catalog is the `Particle` enumeration's constant names in declared
  order. The host's `CraftParticle.toNMS` and the `(float)` casts are passed
  in as functions; the outbox is the sequence of packets delivered so far.
 */
module ParticleWrapper {
  import opened JavaLang
  import opened Sequences

  /** A Bukkit `Location`'s coordinates, or an offset `Vector`. */
  datatype Vec3 = Vec3(x: real, y: real, z: real)

  /** `HParticle`: what the caller asks to display. */
  datatype HParticle = HParticle(particleName: string, amount: Int32, offset: Vec3, speed: real)

  /** `PacketPlayOutWorldParticles` as `play` fills it in. */
  datatype WorldParticlesPacket<Param> = WorldParticlesPacket(
    param: Param,
    longDistance: bool,
    x: real, y: real, z: real,
    offsetX: real, offsetY: real, offsetZ: real,
    speed: real,
    count: Int32)

  /** One packet put on one player's connection. */
  datatype Delivery<Player, Param> = Delivery(player: Player, packet: WorldParticlesPacket<Param>)

  /** The message `Validate.notNull` throws with when nothing matched. */
  const ParticleNotFound := "Particle not found!"

  /** The containment test of the fallback scan: the entry's lower-cased
      name contains the lower-cased request. */
  predicate FuzzyMatch(entry: string, request: string) {
    Contains(ToLowerCase(entry), ToLowerCase(request))
  }

  /** `Particle.valueOf`: the constant whose name is exactly `request`
      (case-sensitive); `None` where the source catches the exception. */
  function ValueOf(catalog: seq<string>, request: string): (r: Option<nat>)
    ensures r.Some? ==> r.value < |catalog| && catalog[r.value] == request
    ensures r.None? <==> request !in catalog
  {
    FirstIndexOf(catalog, (name: string) => name == request)
  }

  /** The declared-order scan: the first entry that fuzzily matches. */
  function ScanCatalog(catalog: seq<string>, request: string): (r: Option<nat>)
    ensures r.Some? ==> r.value < |catalog| && FuzzyMatch(catalog[r.value], request)
    ensures r.Some? ==> forall j :: 0 <= j < r.value ==> !FuzzyMatch(catalog[j], request)
    ensures r.None? <==> forall j :: 0 <= j < |catalog| ==> !FuzzyMatch(catalog[j], request)
  {
    FirstIndexOf(catalog, (name: string) => FuzzyMatch(name, request))
  }

  /** Name resolution: the index of the catalog entry `play` displays, or
      `None` when it reports "Particle not found!". */
  function Resolve(catalog: seq<string>, request: string): (r: Option<nat>)
    ensures request in catalog ==> r.Some? && r.value < |catalog| && catalog[r.value] == request
    ensures r.Some? ==> r.value < |catalog| && FuzzyMatch(catalog[r.value], request)
    ensures request !in catalog && r.Some? ==>
      forall j :: 0 <= j < r.value ==> !FuzzyMatch(catalog[j], request)
    ensures r.None? <==> forall j :: 0 <= j < |catalog| ==> !FuzzyMatch(catalog[j], request)
  {
    match ValueOf(catalog, request)
    case Some(i) =>
      ContainsSelf(ToLowerCase(request));
      Some(i)
    case None => ScanCatalog(catalog, request)
  }

  /** The lookup half of `play`: `valueOf` inside a `try`, and on failure
      the declared-order loop that stops at the first containing entry. It
      computes exactly the index `Resolve` specifies. */
  method Lookup(catalog: seq<string>, request: string) returns (index: Option<nat>)
    ensures index == Resolve(catalog, request)
  {
    index := ValueOf(catalog, request);
    if index.Some? {
      return;
    }
    var wanted := ToLowerCase(request);
    var i := 0;
    while i < |catalog|
      invariant 0 <= i <= |catalog|
      invariant forall j :: 0 <= j < i ==> !FuzzyMatch(catalog[j], request)
    {
      if Contains(ToLowerCase(catalog[i]), wanted) {
        index := Some(i);
        return;
      }
      i := i + 1;
    }
  }

  /** `play`: resolves the name, then either throws before sending anything
      or appends exactly one packet, addressed to `player`, to the outbox. */
  method Play<Player, Param>(
    outbox: seq<Delivery<Player, Param>>,
    catalog: seq<string>,
    toNms: string -> Param,
    toFloat: real -> real,
    player: Player,
    location: Vec3,
    particle: HParticle)
    returns (completion: Completion, sent: seq<Delivery<Player, Param>>)
    ensures Resolve(catalog, particle.particleName).None? ==>
      completion == Threw(IllegalArgumentException(ParticleNotFound)) && sent == outbox
    ensures Resolve(catalog, particle.particleName).Some? ==>
      && completion == Normal
      && |sent| == |outbox| + 1
      && sent[..|outbox|] == outbox
      && sent[|outbox|].player == player
      && sent[|outbox|].packet.param == toNms(catalog[Resolve(catalog, particle.particleName).value])
      && sent[|outbox|].packet.count == particle.amount
    ensures completion.Normal? ==>
      sent[|outbox|].packet == WorldParticlesPacket(
        sent[|outbox|].packet.param, false,
        toFloat(location.x), toFloat(location.y), toFloat(location.z),
        toFloat(particle.offset.x), toFloat(particle.offset.y), toFloat(particle.offset.z),
        toFloat(particle.speed), particle.amount)
  {
    var index := Lookup(catalog, particle.particleName);
    if index.None? {
      completion, sent := Threw(IllegalArgumentException(ParticleNotFound)), outbox;
      return;
    }
    var packet := WorldParticlesPacket(
      toNms(catalog[index.value]), false,
      toFloat(location.x), toFloat(location.y), toFloat(location.z),
      toFloat(particle.offset.x), toFloat(particle.offset.y), toFloat(particle.offset.z),
      toFloat(particle.speed), particle.amount);
    completion, sent := Normal, outbox + [Delivery(player, packet)];
  }

  /** No two constants of the enumeration share a name. */
  predicate Distinct(catalog: seq<string>) {
    forall i, j :: 0 <= i < j < |catalog| ==> catalog[i] != catalog[j]
  }

  /** A name spelled exactly as a constant resolves to that constant, even
      when an earlier entry would match it by containment. */
  lemma ExactNameResolvesToItself(catalog: seq<string>, i: nat)
    requires Distinct(catalog)
    requires i < |catalog|
    ensures Resolve(catalog, catalog[i]) == Some(i)
  {
  }

  /** Without an exact name, the result is the lowest-indexed entry that
      contains the request case-insensitively, and only that one. */
  lemma FallbackIsFirstMatch(catalog: seq<string>, request: string, i: nat)
    requires request !in catalog
    ensures Resolve(catalog, request) == Some(i) <==>
      && i < |catalog|
      && FuzzyMatch(catalog[i], request)
      && forall j :: 0 <= j < i ==> !FuzzyMatch(catalog[j], request)
  {
  }

  /** A name contained in exactly one entry resolves to that entry. */
  lemma UniqueSubstringResolves(catalog: seq<string>, request: string, k: nat)
    requires k < |catalog| && FuzzyMatch(catalog[k], request)
    requires forall j :: 0 <= j < |catalog| && j != k ==> !FuzzyMatch(catalog[j], request)
    ensures Resolve(catalog, request) == Some(k)
  {
  }

  /** The empty request, which no constant spells, picks the first constant:
      every name contains the empty string. */
  lemma EmptyRequestPicksFirst(catalog: seq<string>)
    requires |catalog| > 0
    requires "" !in catalog
    ensures Resolve(catalog, "") == Some(0)
  {
  }

  /** The exact step is not redundant: when an earlier entry contains an
      exact name, the scan alone would pick a different constant. */
  lemma ExactStepShadowsScan(catalog: seq<string>, i: nat, k: nat)
    requires Distinct(catalog)
    requires i < k < |catalog|
    requires FuzzyMatch(catalog[i], catalog[k])
    ensures Resolve(catalog, catalog[k]) == Some(k)
    ensures ScanCatalog(catalog, catalog[k]).Some?
    ensures ScanCatalog(catalog, catalog[k]).value < k
  {
  }
}
