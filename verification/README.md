# hCore: particle name resolution and the item builder, in Dafny

This project models two pieces of the hCore compatibility framework for
Bukkit-style game servers:

- **Particle name resolution** in the 1_17_R1 particle adapter
  (`HParticleWrapper_v1_17_R1.play`). A requested particle name becomes a
  constant of the host's `Particle` enumeration in three steps. First the name
  is tried as an exact, case-sensitive constant name (`Particle.valueOf`). If
  that fails, the constants are scanned in declared order, and the first one
  whose lower-cased name contains the lower-cased request is taken. If that
  also fails, the call throws "Particle not found!". On success exactly one
  world-particles packet goes to the requesting player. On failure nothing is
  sent.
- **The item builder** `HItemBuilder`, modelled as an immutable record with
  nine fields: material, nbt string, name, amount, durability, glow flag,
  lore lines, item-flag set and enchantment-to-level map. The model covers
  its constructors and fluent mutators. Each mutator is a function from the
  builder before the call to the builder after it.

Modules:

- `JavaLang` (`java_lang.dfy`): Java `int`/`short` as `Int32`/`Int16`, nullable
  values, the exceptions raised, and ASCII `toLowerCase` and `contains`.
  `contains` is proved equal to "some window of the string spells the
  needle".
- `Sequences` (`sequences.dfy`): the first-index search and the null-free
  prefix that a for-each loop with `Objects.requireNonNull` gets through.
- `ParticleWrapper` (`particle_wrapper.dfy`): the catalog search and `play`.
- `ItemBuilder` (`item_builder.dfy`): the builder record, its operations, and
  lemmas relating them.

The host pieces are parameters:

- the catalog, a `seq<string>` of constant names in declared order;
- `CraftParticle.toNMS`, a total function from constant name to native
  parameter;
- the `(float)` casts, a `real -> real` function;
- `ColorUtil.colored`, an arbitrary `string -> string` function.

The packet outbox is a sequence of deliveries. Every operation here is a pure
function, or a method whose postconditions fix its outputs. So resolution
depends on nothing but the catalog and the request, and `play` with equal
inputs sends equal packets.

The builder's collections are values. In the source, the copy constructor
copies the lore list, the flag set and the enchantment map into fresh
collections, so later mutations of one builder never reach the other. In
this model that independence holds by construction, and `Copy` states the
field-wise equality. The queries `hasItemFlag`, `hasEnchant` and `hasEnchants` are
the predicates `HasItemFlag`, `HasEnchant` and `HasEnchants`. Lemmas tie each
one to the rest of the builder's behaviour: a flag is present exactly when
adding it is a no-op, an enchantment is present exactly when its level can be
read, and `hasEnchants` holds exactly when some enchantment is present.

Where a source loop can stop half-way, the model records where it stops. For
`appendLore`, `lores`, `addItemFlags` and `removeItemFlags`, each element goes
through `Objects.requireNonNull`, and elements are modelled as nullable. The
result is a `Step`: the builder as the loop left it, plus either normal
completion or the `NullPointerException` thrown. The elements before the first
`null` have already been applied, and the contracts say so.

## Model

| member | source | states |
|---|---|---|
| JavaLang.ToLowerCase | nms/1_17_R1/src/main/java/com/hakan/core/particle/wrapper/HParticleWrapper_v1_17_R1.java:23 | lower-casing keeps the length, lower-cases each char, and leaves no upper-case ASCII letter |
| JavaLang.ToLowerCaseIdempotent | nms/1_17_R1/src/main/java/com/hakan/core/particle/wrapper/HParticleWrapper_v1_17_R1.java:23 | lower-casing an already lower-cased name changes nothing |
| JavaLang.Contains | nms/1_17_R1/src/main/java/com/hakan/core/particle/wrapper/HParticleWrapper_v1_17_R1.java:23 | `s.contains(t)` holds exactly when some window of `s` equals `t` |
| JavaLang.ContainsSelf | nms/1_17_R1/src/main/java/com/hakan/core/particle/wrapper/HParticleWrapper_v1_17_R1.java:20-23 | every name contains itself, so an exact match is also a containment match |
| Sequences.FirstIndexOf | nms/1_17_R1/src/main/java/com/hakan/core/particle/wrapper/HParticleWrapper_v1_17_R1.java:22-26 | a found index satisfies the test and no earlier element does; nothing is found exactly when no element satisfies it |
| Sequences.NullFreePrefix | api/src/main/java/com/hakan/core/item/HItemBuilder.java:306-310 | a loop that rejects `null` processes exactly the elements before the first `null` |
| ParticleWrapper.ValueOf | nms/1_17_R1/src/main/java/com/hakan/core/particle/wrapper/HParticleWrapper_v1_17_R1.java:20 | `Particle.valueOf` finds a constant spelled exactly like the request, and fails exactly when none is |
| ParticleWrapper.ScanCatalog | nms/1_17_R1/src/main/java/com/hakan/core/particle/wrapper/HParticleWrapper_v1_17_R1.java:22-26 | the scan returns the lowest-indexed entry containing the request case-insensitively, and fails exactly when no entry does |
| ParticleWrapper.Resolve | nms/1_17_R1/src/main/java/com/hakan/core/particle/wrapper/HParticleWrapper_v1_17_R1.java:18-29 | an exact name resolves to an entry with that name; otherwise the first containing entry wins; any result contains the request; resolution fails exactly when no entry contains it |
| ParticleWrapper.Lookup | nms/1_17_R1/src/main/java/com/hakan/core/particle/wrapper/HParticleWrapper_v1_17_R1.java:18-28 | the exact lookup followed by the declared-order loop with `break` computes exactly the index resolution specifies |
| ParticleWrapper.Play | nms/1_17_R1/src/main/java/com/hakan/core/particle/wrapper/HParticleWrapper_v1_17_R1.java:16-31 | an unresolved name throws IllegalArgumentException "Particle not found!" and leaves the outbox untouched; otherwise exactly one packet is appended, addressed to the player, carrying the resolved particle, the cast coordinates, offsets and speed, and the requested count |
| ParticleWrapper.ExactNameResolvesToItself | nms/1_17_R1/src/main/java/com/hakan/core/particle/wrapper/HParticleWrapper_v1_17_R1.java:19-20 | with distinct constant names, a request equal to the i-th name resolves to index i |
| ParticleWrapper.FallbackIsFirstMatch | nms/1_17_R1/src/main/java/com/hakan/core/particle/wrapper/HParticleWrapper_v1_17_R1.java:22-26 | without an exact name, the result is i exactly when entry i contains the request and no earlier entry does |
| ParticleWrapper.UniqueSubstringResolves | nms/1_17_R1/src/main/java/com/hakan/core/particle/wrapper/HParticleWrapper_v1_17_R1.java:22-26 | a request contained in exactly one entry resolves to that entry |
| ParticleWrapper.EmptyRequestPicksFirst | nms/1_17_R1/src/main/java/com/hakan/core/particle/wrapper/HParticleWrapper_v1_17_R1.java:22-26 | the empty name resolves to the first constant of a non-empty catalog |
| ParticleWrapper.ExactStepShadowsScan | nms/1_17_R1/src/main/java/com/hakan/core/particle/wrapper/HParticleWrapper_v1_17_R1.java:19-26 | when an earlier entry contains an exact name, the exact step returns the exact entry while the scan alone would return an earlier one |
| ItemBuilder.HasEnchantsIffSomePresent | api/src/main/java/com/hakan/core/item/HItemBuilder.java:363-365 | `hasEnchants` holds exactly when some enchantment is present |
| ItemBuilder.GetEnchantLevel | api/src/main/java/com/hakan/core/item/HItemBuilder.java:393-395 | the stored level is returned exactly when the enchantment is present; otherwise unboxing `null` throws NullPointerException |
| ItemBuilder.HasEnchant | api/src/main/java/com/hakan/core/item/HItemBuilder.java:373-375 | `hasEnchant` holds exactly when `getEnchantLevel` returns a level instead of throwing |
| ItemBuilder.HasItemFlagIffAddIsNoOp | api/src/main/java/com/hakan/core/item/HItemBuilder.java:429-431 | `hasItemFlag` holds exactly when adding that flag leaves the builder unchanged, and exactly when removing it changes the builder |
| ItemBuilder.Create | api/src/main/java/com/hakan/core/item/HItemBuilder.java:122-132 | the given material, amount and durability; nbt "{}", empty name, no glow, no lore, no flags, no enchantments |
| ItemBuilder.CreateWithAmount | api/src/main/java/com/hakan/core/item/HItemBuilder.java:111-113 | as above with durability 0 |
| ItemBuilder.CreateDefault | api/src/main/java/com/hakan/core/item/HItemBuilder.java:101-103 | as above with amount 1 and durability 0 |
| ItemBuilder.Copy | api/src/main/java/com/hakan/core/item/HItemBuilder.java:139-149 | the copy equals the original field by field |
| ItemBuilder.SetType | api/src/main/java/com/hakan/core/item/HItemBuilder.java:187-190 | the material becomes the given one and no other field changes |
| ItemBuilder.SetName | api/src/main/java/com/hakan/core/item/HItemBuilder.java:210-226 | the name becomes the given one, colorized when requested, and no other field changes |
| ItemBuilder.SetAmount | api/src/main/java/com/hakan/core/item/HItemBuilder.java:331-334 | the amount becomes the given one and no other field changes |
| ItemBuilder.SetDurability | api/src/main/java/com/hakan/core/item/HItemBuilder.java:353-356 | the durability becomes the given one and no other field changes |
| ItemBuilder.SetGlow | api/src/main/java/com/hakan/core/item/HItemBuilder.java:485-488 | the glow flag becomes the given one and no other field changes |
| ItemBuilder.SetNbt | api/src/main/java/com/hakan/core/item/HItemBuilder.java:505-508 | the nbt string becomes the given one and no other field changes |
| ItemBuilder.AppendLore | api/src/main/java/com/hakan/core/item/HItemBuilder.java:305-313 | the old lore stays a prefix, and the lines before the first `null` follow it, colorized when requested; a `null` line throws after those lines were added; only the lore changes |
| ItemBuilder.Lores | api/src/main/java/com/hakan/core/item/HItemBuilder.java:280-283 | the old lore is discarded, and the lore becomes the given lines up to the first `null`, colorized when requested; completion is normal exactly when there is no `null`, otherwise it throws NullPointerException "lore cannot be null!"; only the lore changes |
| ItemBuilder.AddEnchant | api/src/main/java/com/hakan/core/item/HItemBuilder.java:405-408 | the enchantment is present with the given level, overwriting any earlier one; other enchantments' levels and all other fields are unchanged |
| ItemBuilder.RemoveEnchant | api/src/main/java/com/hakan/core/item/HItemBuilder.java:417-420 | the enchantment is absent; other enchantments' levels and all other fields are unchanged |
| ItemBuilder.AddItemFlags | api/src/main/java/com/hakan/core/item/HItemBuilder.java:450-454 | the flag set becomes its union with the flags before the first `null`; a `null` flag throws after those were added; only the flags change |
| ItemBuilder.RemoveItemFlags | api/src/main/java/com/hakan/core/item/HItemBuilder.java:463-467 | the flag set loses the flags before the first `null`; a `null` flag throws after those were removed; only the flags change |
| ItemBuilder.AppendLoreConcat | api/src/main/java/com/hakan/core/item/HItemBuilder.java:305-313 | appending a null-free batch and then a second batch is the same as appending their concatenation |
| ItemBuilder.LoresIdempotent | api/src/main/java/com/hakan/core/item/HItemBuilder.java:280-283 | setting the same lore twice is the same as setting it once |
| ItemBuilder.RemoveUndoesAddEnchant | api/src/main/java/com/hakan/core/item/HItemBuilder.java:405-420 | removing an enchantment the builder lacked, right after adding it, restores the builder |
| ItemBuilder.AddEnchantOverwrites | api/src/main/java/com/hakan/core/item/HItemBuilder.java:405-408 | the later of two `addEnchant` calls for one enchantment decides its level |
| ItemBuilder.HasEnchantsAfterRemove | api/src/main/java/com/hakan/core/item/HItemBuilder.java:363-420 | after `removeEnchant(e)`, `hasEnchants` holds exactly when an enchantment other than e was present |
| ItemBuilder.AddItemFlagsIdempotent | api/src/main/java/com/hakan/core/item/HItemBuilder.java:450-454 | adding the same flags a second time changes nothing and ends the same way |
| ItemBuilder.RemoveUndoesAddItemFlags | api/src/main/java/com/hakan/core/item/HItemBuilder.java:450-467 | removing null-free flags the builder lacked, right after adding them, restores the builder and completes normally |

## Left out

- `HItemBuilder.initialize`: the reflective loading of the NBT manager and of the glow enchantment, and the private-field write that registers that enchantment. These are foreign runtime calls with no logic of their own.
- `HItemBuilder(ItemStack)` and `build()`: both depend on the host's `ItemStack`/`ItemMeta` and on the NBT manager implementations, which are not part of this model. The NBT round trip is therefore not modelled.
- `getGlowEnchantment`, `getNbtManager`, `hasItemMeta` (which always returns true) and the plain getters are not modelled. The getters return the builder's own mutable collections, so a caller that mutates them changes the builder. Aliasing of this kind has no counterpart in a value model, so two consequences are not modelled:
  - `lores(colored, b.getLore())` clears the list before it reads it, so the lore ends up empty.
  - `appendLore(colored, b.getLore())` on a non-empty lore appends one line and then throws `ConcurrentModificationException` from the list iterator.
- `null` arguments other than list elements are not modelled: a `null` material, name, nbt string, enchantment or flag, and a `null` argument list or array. Dafny values cannot be `null`. The setters `type`, `name` and `nbt`, the enchantment and flag members, and `appendLore` reject each of these with `NullPointerException` before any field changes, so the builder is left as it was. The two exceptions follow.
- `Create`, `CreateWithAmount`, `CreateDefault`: cannot represent a builder whose material is `null`. The three constructors store the material without any check (HItemBuilder.java:123), so `new HItemBuilder((Material) null)` completes normally with a `null` type. The copy constructor carries that `null` over, and only `type(null)` rejects it.
- `Lores`: does not model `lores(colored, null)`. The source clears the lore first and only then rejects the `null` list, so that call empties the lore and throws `NullPointerException` "lines cannot be null!".
- The overloads `name(name)`, `lores(lore)`, `appendLore(lines...)` and `appendLore(List)` are not separate members. Each is its two-argument form with `colored` set to true, and the `String...` forms are the same list.
- `ColorUtil.colored` is an arbitrary function parameter, because its definition is not part of this model.
- `ParticleWrapper.Play`: `CraftParticle.toNMS` is taken to be total. The real host method can throw for particles that need extra data. Such an exception inside the exact step would send control to the scan, and inside the scan it would escape from `play`.
- `ParticleWrapper.Play`: the `(float)` narrowing is an abstract `toFloat` function. Packet serialization and transport are not modelled; only the packet's fields and its addressee are.
- `JavaLang.ToLowerCase`: models lower-casing for ASCII letters only. Java's `toLowerCase` depends on the locale and also lower-cases non-ASCII letters. Bukkit particle constant names are ASCII, but the request is caller text, so a non-ASCII request can resolve differently. For example, Java lower-cases U+212A KELVIN SIGN to ASCII `k`, so that request picks the first constant containing `k`, whereas the model reports "Particle not found!".
- A `null` particle name is not modelled. In the source, `valueOf(null)` throws and that exception is caught; the scan then throws `NullPointerException` on the first entry.
- The pathfinder entity adapter for 1_16_R3 is not modelled: entity construction, world insertion, packet broadcast, the asynchronous join listener and goal injection are host I/O and concurrency.
