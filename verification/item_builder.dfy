/**
  `HItemBuilder` as an immutable record: every fluent mutator is a function
  from the builder before the call to the builder after it. Mutators whose
  loops can stop half-way on a `null` element return a `Step`: the state the
  builder is left in and whether the call threw.

  `ColorUtil.colored` is passed in as an arbitrary `colorize` function; the
  material, item-flag and enchantment types are type parameters.
 */
module ItemBuilder {
  import opened JavaLang
  import opened Sequences

  /** The builder's nine fields. */
  datatype Builder<Material, Flag, Enchant> = Builder(
    material: Material,
    nbt: string,
    name: string,
    amount: Int32,
    durability: Int16,
    glow: bool,
    lore: seq<string>,
    flags: set<Flag>,
    enchantments: map<Enchant, Int32>)

  /** The builder a mutator leaves behind, and how the call ended. */
  datatype Step<S> = Step(state: S, completion: Completion)

  /** The serialized form of an empty tag compound. */
  const EmptyNbt := "{}"
  const LoreNull := "lore cannot be null!"
  const FlagNull := "item flag cannot be null!"

  /** A builder with nothing set beyond material, amount and durability. */
  ghost predicate Unadorned<M, F(!new), E(!new)>(b: Builder<M, F, E>) {
    && b.nbt == EmptyNbt
    && b.name == ""
    && !b.glow
    && b.lore == []
    && b.flags == {}
    && b.enchantments == map[]
  }

  // ---------------------------------------------------------------- queries

  /** `hasItemFlag`: the flag set contains `flag`. */
  predicate HasItemFlag<M, F(!new), E(!new)>(b: Builder<M, F, E>, flag: F) {
    flag in b.flags
  }

  /** `getEnchantLevel`: the stored level; unboxing the `null` a missing key
      yields throws a JVM `NullPointerException`, constructed with no message. */
  function GetEnchantLevel<M, F(!new), E(!new)>(b: Builder<M, F, E>, enchantment: E): (r: Result<Int32, Exception>)
    ensures r.Ok? <==> enchantment in b.enchantments
    ensures r.Ok? ==> r.value == b.enchantments[enchantment]
    ensures r.Err? ==> r.error == NullPointerException(None)
  {
    if enchantment in b.enchantments then Ok(b.enchantments[enchantment])
    else Err(NullPointerException(None))
  }

  /** `hasEnchant`: true exactly when `getEnchantLevel` returns a level
      instead of throwing. */
  predicate HasEnchant<M, F(!new), E(!new)>(b: Builder<M, F, E>, enchantment: E)
    ensures HasEnchant(b, enchantment) <==> GetEnchantLevel(b, enchantment).Ok?
  {
    enchantment in b.enchantments
  }

  /** `hasEnchants`: the map's size is positive. */
  predicate HasEnchants<M, F(!new), E(!new)>(b: Builder<M, F, E>) {
    |b.enchantments| > 0
  }

  // ----------------------------------------------------------- constructors

  /** `HItemBuilder(type, amount, durability)`. */
  function Create<M, F(!new), E(!new)>(material: M, amount: Int32, durability: Int16): (b: Builder<M, F, E>)
    ensures b.material == material && b.amount == amount && b.durability == durability
    ensures Unadorned(b)
  {
    Builder(material, EmptyNbt, "", amount, durability, false, [], {}, map[])
  }

  /** `HItemBuilder(type, amount)`: durability 0. */
  function CreateWithAmount<M, F(!new), E(!new)>(material: M, amount: Int32): (b: Builder<M, F, E>)
    ensures b.material == material && b.amount == amount && b.durability == 0
    ensures Unadorned(b)
  {
    Create(material, amount, 0)
  }

  /** `HItemBuilder(type)`: one item, durability 0. */
  function CreateDefault<M, F(!new), E(!new)>(material: M): (b: Builder<M, F, E>)
    ensures b.material == material && b.amount == 1 && b.durability == 0
    ensures Unadorned(b)
  {
    CreateWithAmount(material, 1)
  }

  /** The copy constructor: every field taken over, the collections copied. */
  function Copy<M, F(!new), E(!new)>(b: Builder<M, F, E>): (r: Builder<M, F, E>)
    ensures r == b
  {
    Builder(b.material, b.nbt, b.name, b.amount, b.durability, b.glow,
            b.lore, b.flags, b.enchantments)
  }

  // ------------------------------------------------------- scalar mutators

  /** `type(material)`. */
  function SetType<M, F(!new), E(!new)>(b: Builder<M, F, E>, material: M): (r: Builder<M, F, E>)
    ensures r.material == material
    ensures r.(material := b.material) == b
  {
    b.(material := material)
  }

  /** `ColorUtil.colored` applied when `colored` is set. */
  function Colorize(colored: bool, text: string, colorize: string -> string): string {
    if colored then colorize(text) else text
  }

  /** `name(colored, name)`; `name(name)` is this with `colored` set. */
  function SetName<M, F(!new), E(!new)>(b: Builder<M, F, E>, colored: bool, name: string,
                            colorize: string -> string): (r: Builder<M, F, E>)
    ensures colored ==> r.name == colorize(name)
    ensures !colored ==> r.name == name
    ensures r.(name := b.name) == b
  {
    b.(name := Colorize(colored, name, colorize))
  }

  /** `amount(amount)`. */
  function SetAmount<M, F(!new), E(!new)>(b: Builder<M, F, E>, amount: Int32): (r: Builder<M, F, E>)
    ensures r.amount == amount
    ensures r.(amount := b.amount) == b
  {
    b.(amount := amount)
  }

  /** `durability(durability)`. */
  function SetDurability<M, F(!new), E(!new)>(b: Builder<M, F, E>, durability: Int16): (r: Builder<M, F, E>)
    ensures r.durability == durability
    ensures r.(durability := b.durability) == b
  {
    b.(durability := durability)
  }

  /** `glow(glow)`. */
  function SetGlow<M, F(!new), E(!new)>(b: Builder<M, F, E>, glow: bool): (r: Builder<M, F, E>)
    ensures r.glow == glow
    ensures r.(glow := b.glow) == b
  {
    b.(glow := glow)
  }

  /** `nbt(nbt)`. */
  function SetNbt<M, F(!new), E(!new)>(b: Builder<M, F, E>, nbt: string): (r: Builder<M, F, E>)
    ensures r.nbt == nbt
    ensures r.(nbt := b.nbt) == b
  {
    b.(nbt := nbt)
  }

  // ------------------------------------------------------------------ lore

  /** `appendLore(colored, lines)`: appends line after line, colorized when
      `colored`; a `null` line throws after the lines before it were added. */
  function AppendLore<M, F(!new), E(!new)>(b: Builder<M, F, E>, colored: bool, lines: seq<Option<string>>,
                               colorize: string -> string): (r: Step<Builder<M, F, E>>)
    ensures r.state.(lore := b.lore) == b
    ensures b.lore <= r.state.lore
    ensures |r.state.lore| == |b.lore| + NullFreePrefix(lines)
    ensures forall i :: 0 <= i < NullFreePrefix(lines) ==>
      r.state.lore[|b.lore| + i] == Colorize(colored, lines[i].value, colorize)
    ensures NullFreePrefix(lines) == |lines| ==> r.completion == Normal
    ensures NullFreePrefix(lines) < |lines| ==>
      r.completion == Threw(NullPointerException(Some(LoreNull)))
    decreases |lines|
  {
    if |lines| == 0 then Step(b, Normal)
    else
      match lines[0]
      case None => Step(b, Threw(NullPointerException(Some(LoreNull))))
      case Some(line) =>
        var next := b.(lore := b.lore + [Colorize(colored, line, colorize)]);
        var r := AppendLore(next, colored, lines[1..], colorize);
        assert forall i :: 1 <= i < NullFreePrefix(lines) ==> lines[i] == lines[1..][i - 1];
        r
  }

  /** `lores(colored, lore)`: clears the lore, then appends `lore`. A `null`
      line still leaves the old lore gone and the lines before it in place. */
  function Lores<M, F(!new), E(!new)>(b: Builder<M, F, E>, colored: bool, lore: seq<Option<string>>,
                          colorize: string -> string): (r: Step<Builder<M, F, E>>)
    ensures r.state.(lore := b.lore) == b
    ensures |r.state.lore| == NullFreePrefix(lore)
    ensures forall i :: 0 <= i < |r.state.lore| ==>
      r.state.lore[i] == Colorize(colored, lore[i].value, colorize)
    ensures r.completion.Normal? <==> NullFreePrefix(lore) == |lore|
    ensures NullFreePrefix(lore) < |lore| ==>
      r.completion == Threw(NullPointerException(Some(LoreNull)))
  {
    AppendLore(b.(lore := []), colored, lore, colorize)
  }

  // ---------------------------------------------------------- enchantments

  /** `addEnchant(enchantment, level)`: puts the level, replacing any earlier one. */
  function AddEnchant<M, F(!new), E(!new)>(b: Builder<M, F, E>, enchantment: E, level: Int32): (r: Builder<M, F, E>)
    ensures HasEnchant(r, enchantment) && GetEnchantLevel(r, enchantment) == Ok(level)
    ensures forall e :: e != enchantment ==> GetEnchantLevel(r, e) == GetEnchantLevel(b, e)
    ensures r.(enchantments := b.enchantments) == b
  {
    b.(enchantments := b.enchantments[enchantment := level])
  }

  /** `removeEnchant(enchantment)`: drops the key, if present. */
  function RemoveEnchant<M, F(!new), E(!new)>(b: Builder<M, F, E>, enchantment: E): (r: Builder<M, F, E>)
    ensures !HasEnchant(r, enchantment)
    ensures forall e :: e != enchantment ==> GetEnchantLevel(r, e) == GetEnchantLevel(b, e)
    ensures r.(enchantments := b.enchantments) == b
  {
    b.(enchantments := b.enchantments - {enchantment})
  }

  // ------------------------------------------------------------ item flags

  /** `addItemFlags(flags...)`: adds flag after flag; a `null` flag throws
      after the flags before it were added. */
  function AddItemFlags<M, F(!new), E(!new)>(b: Builder<M, F, E>, flags: seq<Option<F>>): (r: Step<Builder<M, F, E>>)
    ensures r.state.(flags := b.flags) == b
    ensures forall f :: f in r.state.flags <==>
      f in b.flags || Some(f) in flags[..NullFreePrefix(flags)]
    ensures NullFreePrefix(flags) == |flags| ==> r.completion == Normal
    ensures NullFreePrefix(flags) < |flags| ==>
      r.completion == Threw(NullPointerException(Some(FlagNull)))
    decreases |flags|
  {
    if |flags| == 0 then Step(b, Normal)
    else
      match flags[0]
      case None => Step(b, Threw(NullPointerException(Some(FlagNull))))
      case Some(flag) =>
        var r := AddItemFlags(b.(flags := b.flags + {flag}), flags[1..]);
        NullFreePrefixSplits(flags);
        r
  }

  /** `removeItemFlags(flags...)`: removes flag after flag; a `null` flag
      throws after the flags before it were removed. */
  function RemoveItemFlags<M, F(!new), E(!new)>(b: Builder<M, F, E>, flags: seq<Option<F>>): (r: Step<Builder<M, F, E>>)
    ensures r.state.(flags := b.flags) == b
    ensures forall f :: f in r.state.flags <==>
      f in b.flags && Some(f) !in flags[..NullFreePrefix(flags)]
    ensures NullFreePrefix(flags) == |flags| ==> r.completion == Normal
    ensures NullFreePrefix(flags) < |flags| ==>
      r.completion == Threw(NullPointerException(Some(FlagNull)))
    decreases |flags|
  {
    if |flags| == 0 then Step(b, Normal)
    else
      match flags[0]
      case None => Step(b, Threw(NullPointerException(Some(FlagNull))))
      case Some(flag) =>
        var r := RemoveItemFlags(b.(flags := b.flags - {flag}), flags[1..]);
        NullFreePrefixSplits(flags);
        r
  }

  // ------------------------------------------------------ relating the operations

  /** `hasEnchants` holds exactly when some enchantment is present. */
  lemma HasEnchantsIffSomePresent<M, F(!new), E(!new)>(b: Builder<M, F, E>)
    ensures HasEnchants(b) <==> exists e :: HasEnchant(b, e)
  {
    if |b.enchantments| > 0 {
      var e :| e in b.enchantments;
      assert HasEnchant(b, e);
    } else {
      assert b.enchantments == map[];
    }
  }

  /** `hasItemFlag` holds exactly when adding that flag changes nothing, and
      exactly when removing it changes the builder. */
  lemma HasItemFlagIffAddIsNoOp<M, F(!new), E(!new)>(b: Builder<M, F, E>, flag: F)
    ensures HasItemFlag(b, flag) <==> AddItemFlags(b, [Some(flag)]) == Step(b, Normal)
    ensures HasItemFlag(b, flag) <==> RemoveItemFlags(b, [Some(flag)]).state != b
  {
    var one := [Some(flag)];
    assert NullFreePrefix(one) == 1;
    assert one[..1] == one;
    var added := AddItemFlags(b, one).state;
    var removed := RemoveItemFlags(b, one).state;
    if flag in b.flags {
      assert added.flags == b.flags;
      assert flag !in removed.flags;
    } else {
      assert removed.flags == b.flags;
      assert flag in added.flags;
    }
  }

  /** Appending two null-free batches one after the other is appending
      their concatenation; a `null` in the second batch fails the same way. */
  lemma {:induction false} AppendLoreConcat<M, F(!new), E(!new)>(
    b: Builder<M, F, E>, colored: bool, first: seq<Option<string>>, second: seq<Option<string>>,
    colorize: string -> string)
    requires NullFreePrefix(first) == |first|
    ensures AppendLore(AppendLore(b, colored, first, colorize).state, colored, second, colorize)
         == AppendLore(b, colored, first + second, colorize)
    decreases |first|
  {
    if |first| > 0 {
      var next := b.(lore := b.lore + [Colorize(colored, first[0].value, colorize)]);
      assert (first + second)[1..] == first[1..] + second;
      AppendLoreConcat(next, colored, first[1..], second, colorize);
    } else {
      assert first + second == second;
    }
  }

  /** Replacing the lore twice with the same lines is replacing it once. */
  lemma LoresIdempotent<M, F(!new), E(!new)>(
    b: Builder<M, F, E>, colored: bool, lore: seq<Option<string>>, colorize: string -> string)
    ensures Lores(Lores(b, colored, lore, colorize).state, colored, lore, colorize)
         == Lores(b, colored, lore, colorize)
  {
  }

  /** Adding an enchantment the builder lacked and removing it again gives
      back the builder. */
  lemma RemoveUndoesAddEnchant<M, F(!new), E(!new)>(b: Builder<M, F, E>, enchantment: E, level: Int32)
    requires !HasEnchant(b, enchantment)
    ensures RemoveEnchant(AddEnchant(b, enchantment, level), enchantment) == b
  {
  }

  /** The later `addEnchant` of the same enchantment wins. */
  lemma AddEnchantOverwrites<M, F(!new), E(!new)>(b: Builder<M, F, E>, enchantment: E, first: Int32, second: Int32)
    ensures AddEnchant(AddEnchant(b, enchantment, first), enchantment, second)
         == AddEnchant(b, enchantment, second)
  {
  }

  /** After `removeEnchant`, `hasEnchants` holds exactly when some other
      enchantment is left. */
  lemma HasEnchantsAfterRemove<M, F(!new), E(!new)>(b: Builder<M, F, E>, enchantment: E)
    ensures HasEnchants(RemoveEnchant(b, enchantment)) <==>
      exists e :: e != enchantment && HasEnchant(b, e)
  {
    var r := RemoveEnchant(b, enchantment);
    HasEnchantsIffSomePresent(r);
    if exists e :: e != enchantment && HasEnchant(b, e) {
      var e :| e != enchantment && HasEnchant(b, e);
      assert HasEnchant(r, e);
    }
    if HasEnchants(r) {
      var e :| HasEnchant(r, e);
      assert e != enchantment && HasEnchant(b, e);
    }
  }

  /** Adding the same flags again changes nothing and ends the same way. */
  lemma AddItemFlagsIdempotent<M, F(!new), E(!new)>(b: Builder<M, F, E>, flags: seq<Option<F>>)
    ensures AddItemFlags(AddItemFlags(b, flags).state, flags) == AddItemFlags(b, flags)
  {
    var once := AddItemFlags(b, flags);
    var twice := AddItemFlags(once.state, flags);
    assert forall f :: f in twice.state.flags <==> f in once.state.flags by {
      forall f ensures f in twice.state.flags <==> f in once.state.flags {
        assert f in twice.state.flags <==> f in once.state.flags || Some(f) in flags[..NullFreePrefix(flags)];
      }
    }
    assert twice.state.flags == once.state.flags;
  }

  /** Removing null-free flags the builder did not have undoes adding them. */
  lemma RemoveUndoesAddItemFlags<M, F(!new), E(!new)>(b: Builder<M, F, E>, flags: seq<Option<F>>)
    requires NullFreePrefix(flags) == |flags|
    requires forall i :: 0 <= i < |flags| ==> !HasItemFlag(b, flags[i].value)
    ensures RemoveItemFlags(AddItemFlags(b, flags).state, flags) == Step(b, Normal)
  {
    assert flags[..|flags|] == flags;
    var added := AddItemFlags(b, flags);
    var removed := RemoveItemFlags(added.state, flags);
    assert forall f :: f in removed.state.flags <==> f in b.flags by {
      forall f ensures f in removed.state.flags <==> f in b.flags {
        assert f in removed.state.flags <==> f in added.state.flags && Some(f) !in flags;
        if Some(f) in flags {
          var i :| 0 <= i < |flags| && flags[i] == Some(f);
          assert !HasItemFlag(b, flags[i].value);
        }
      }
    }
    assert removed.state.flags == b.flags;
  }
}
