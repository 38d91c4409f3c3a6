/** The reaction handler registry of bot/reactions.py: a map from emoji key
    to the `(add, remove)` handler pairs registered for it, in registration
    order. Dispatch is modelled as the sequence of handlers a reaction event
    invokes, in invocation order; awaiting them is outside the model. `H`
    stands for a handler coroutine. */
module Reactions {
  import opened Wrappers

  /** A key of `handler_map`: a custom emoji's integer id or a Unicode
      emoji's text. An int and a str never compare equal as dict keys. */
  datatype EmojiKey = CustomId(id: int) | EmojiName(name: string)

  /** The parts of a `discord.PartialEmoji` the key depends on. The Discord
      library counts an emoji as custom exactly when it has an id. */
  datatype PartialEmoji = PartialEmoji(id: Option<int>, name: string)

  /** A registered pair; either half may be `None`. */
  datatype HandlerPair<H> = HandlerPair(add: Option<H>, remove: Option<H>)

  type Registry<H> = map<EmojiKey, seq<HandlerPair<H>>>

  /** Which half of the pairs an event dispatches to. */
  datatype Side = AddSide | RemoveSide

  function Half<H>(p: HandlerPair<H>, side: Side): Option<H> {
    match side
    case AddSide => p.add
    case RemoveSide => p.remove
  }

  /** `handler_map[k]` on the `defaultdict(list)`: a key never registered
      reads as the empty list. (The read also stores that empty list under
      `k`, which no lookup can tell apart from an absent key.) */
  function Handlers<H>(reg: Registry<H>, k: EmojiKey): (r: seq<HandlerPair<H>>)
    ensures k !in reg ==> r == []
  {
    if k in reg then reg[k] else []
  }

  /** `reaction(add, remove, k)`: the pair goes to the end of `k`'s list. */
  function Reaction<H>(reg: Registry<H>, add: Option<H>, remove: Option<H>, k: EmojiKey): (r: Registry<H>)
    ensures Handlers(r, k) == Handlers(reg, k) + [HandlerPair(add, remove)]
    ensures forall k' :: k' != k ==> Handlers(r, k') == Handlers(reg, k')
  {
    reg[k := Handlers(reg, k) + [HandlerPair(add, remove)]]
  }

  /** Registering at two different keys gives the same registry in either order. */
  lemma ReactionsAtDifferentKeysCommute<H>(reg: Registry<H>, a1: Option<H>, r1: Option<H>, k1: EmojiKey,
                                           a2: Option<H>, r2: Option<H>, k2: EmojiKey)
    requires k1 != k2
    ensures Reaction(Reaction(reg, a1, r1, k1), a2, r2, k2) == Reaction(Reaction(reg, a2, r2, k2), a1, r1, k1)
  {
  }

  /** Registering the pairs `ps` one after another at `k`. */
  function ReactionAll<H>(reg: Registry<H>, ps: seq<HandlerPair<H>>, k: EmojiKey): Registry<H>
    decreases |ps|
  {
    if |ps| == 0 then reg
    else ReactionAll(Reaction(reg, ps[0].add, ps[0].remove, k), ps[1..], k)
  }

  /** After a series of registrations at `k`, its list holds the earlier
      pairs followed by the new ones in the order they were registered. */
  lemma {:induction false} ReactionAllAppends<H>(reg: Registry<H>, ps: seq<HandlerPair<H>>, k: EmojiKey)
    ensures Handlers(ReactionAll(reg, ps, k), k) == Handlers(reg, k) + ps
    decreases |ps|
  {
    if |ps| > 0 {
      var reg' := Reaction(reg, ps[0].add, ps[0].remove, k);
      ReactionAllAppends(reg', ps[1..], k);
      assert Handlers(reg, k) + [ps[0]] + ps[1..] == Handlers(reg, k) + ps;
    }
  }

  /** `partial_emoji_to_key`: the id for a custom emoji, the name otherwise. */
  function PartialEmojiToKey(pe: PartialEmoji): (k: EmojiKey)
    ensures k.CustomId? <==> pe.id.Some?
    ensures k.CustomId? ==> k.id == pe.id.value
    ensures k.EmojiName? ==> k.name == pe.name
  {
    if pe.id.Some? then CustomId(pe.id.value) else EmojiName(pe.name)
  }

  /** Two emojis share a handler list exactly when both are custom with the
      same id (their names aside) or both are Unicode with the same name. */
  lemma SameKeyIff(p: PartialEmoji, q: PartialEmoji)
    ensures PartialEmojiToKey(p) == PartialEmojiToKey(q) <==>
      (p.id.Some? && p.id == q.id) || (p.id.None? && q.id.None? && p.name == q.name)
  {
  }

  /** The non-`None` halves on `side`, in list order: the handlers the
      `for` loop awaits. */
  function Selected<H>(pairs: seq<HandlerPair<H>>, side: Side): (r: seq<H>)
    ensures |r| <= |pairs|
    ensures forall j :: 0 <= j < |r| ==> exists i :: 0 <= i < |pairs| && Half(pairs[i], side) == Some(r[j])
    ensures forall i :: 0 <= i < |pairs| && Half(pairs[i], side).Some? ==> Half(pairs[i], side).value in r
    ensures (forall i :: 0 <= i < |pairs| ==> Half(pairs[i], side).Some?) ==>
      |r| == |pairs| && forall i :: 0 <= i < |pairs| ==> Some(r[i]) == Half(pairs[i], side)
  {
    if |pairs| == 0 then []
    else
      var rest := Selected(pairs[1..], side);
      assert forall i :: 0 < i < |pairs| ==> pairs[i] == pairs[1..][i - 1];
      match Half(pairs[0], side)
      case Some(h) => [h] + rest
      case None => rest
  }

  /** Selection keeps registration order: it distributes over concatenation. */
  lemma {:induction false} SelectedConcat<H>(a: seq<HandlerPair<H>>, b: seq<HandlerPair<H>>, side: Side)
    ensures Selected(a + b, side) == Selected(a, side) + Selected(b, side)
  {
    if |a| > 0 {
      assert (a + b)[1..] == a[1..] + b;
      SelectedConcat(a[1..], b, side);
    } else {
      assert a + b == b;
    }
  }

  /** The handlers an event for `emoji` awaits: none when the message could
      not be fetched, otherwise the non-`None` halves on `side` of the
      emoji key's pairs, in registration order. */
  function Dispatch<H>(reg: Registry<H>, emoji: PartialEmoji, messageFound: bool, side: Side): (r: seq<H>)
    ensures !messageFound ==> r == []
    ensures PartialEmojiToKey(emoji) !in reg ==> r == []
  {
    if !messageFound then [] else Selected(Handlers(reg, PartialEmojiToKey(emoji)), side)
  }

  /** `on_raw_reaction_add`. */
  function OnRawReactionAdd<H>(reg: Registry<H>, emoji: PartialEmoji, messageFound: bool): (r: seq<H>)
    ensures !messageFound ==> r == []
    ensures var hs := Handlers(reg, PartialEmojiToKey(emoji));
      messageFound ==> forall j :: 0 <= j < |r| ==> exists i :: 0 <= i < |hs| && hs[i].add == Some(r[j])
    ensures var hs := Handlers(reg, PartialEmojiToKey(emoji));
      messageFound ==> forall i :: 0 <= i < |hs| && hs[i].add.Some? ==> hs[i].add.value in r
  {
    Dispatch(reg, emoji, messageFound, AddSide)
  }

  /** `on_raw_reaction_remove`. */
  function OnRawReactionRemove<H>(reg: Registry<H>, emoji: PartialEmoji, messageFound: bool): (r: seq<H>)
    ensures !messageFound ==> r == []
    ensures var hs := Handlers(reg, PartialEmojiToKey(emoji));
      messageFound ==> forall j :: 0 <= j < |r| ==> exists i :: 0 <= i < |hs| && hs[i].remove == Some(r[j])
    ensures var hs := Handlers(reg, PartialEmojiToKey(emoji));
      messageFound ==> forall i :: 0 <= i < |hs| && hs[i].remove.Some? ==> hs[i].remove.value in r
  {
    Dispatch(reg, emoji, messageFound, RemoveSide)
  }

  /** A handler registered for an emoji's key runs after every handler
      registered before it; a `None` half adds nothing; and registering at
      any other key leaves the emoji's dispatch as it was. */
  lemma DispatchAfterReaction<H>(reg: Registry<H>, add: Option<H>, remove: Option<H>, k: EmojiKey,
                                 emoji: PartialEmoji, side: Side)
    ensures PartialEmojiToKey(emoji) == k ==>
      Dispatch(Reaction(reg, add, remove, k), emoji, true, side)
        == Dispatch(reg, emoji, true, side) + (if Half(HandlerPair(add, remove), side).Some? then [Half(HandlerPair(add, remove), side).value] else [])
    ensures PartialEmojiToKey(emoji) != k ==>
      Dispatch(Reaction(reg, add, remove, k), emoji, true, side) == Dispatch(reg, emoji, true, side)
  {
    SelectedConcat(Handlers(reg, k), [HandlerPair(add, remove)], side);
  }
}
