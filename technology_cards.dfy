/**
 * The technology mini-cards of a research console container, and the
 * specification of how SyncTechnologyList reconciles them with a new list
 * of technologies.
 */
module TechnologyCards {

  /** A technology, identified by its prototype id (prototypes are unique per id). */
  type Tech = string

  /** A mini technology card: a UI control object, so its identity matters. */
  class MiniTechnologyCard {
    const technology: Tech

    constructor (technology: Tech)
      ensures this.technology == technology
    {
      this.technology := technology;
    }
  }

  /** A child control of a card container: a mini-card, or some other control. */
  datatype Child = MiniCard(card: MiniTechnologyCard) | OtherControl(id: nat)

  /** True when `c` is a mini-card for technology `t`. */
  predicate HasTech(c: Child, t: Tech)
  {
    c.MiniCard? && c.card.technology == t
  }

  /** The technologies that have a mini-card among `cs`. */
  function Keys(cs: seq<Child>): (keys: set<Tech>)
  {
    set c | c in cs && c.MiniCard? :: c.card.technology
  }

  /** The elements of a technology list, as a set. */
  function Elems(techs: seq<Tech>): (elems: set<Tech>)
  {
    set t | t in techs
  }

  /** No two mini-cards among `cs` carry the same technology (the condition
      under which building the key-to-card dictionary does not throw). */
  predicate UniqueKeys(cs: seq<Child>)
  {
    cs == [] || ((cs[0].MiniCard? ==> cs[0].card.technology !in Keys(cs[1..])) && UniqueKeys(cs[1..]))
  }

  /** No technology occurs twice in `techs`. */
  predicate NoRepeats(techs: seq<Tech>)
  {
    forall i, j :: 0 <= i < j < |techs| ==> techs[i] != techs[j]
  }

  /** The children of `cs` in order, without the mini-cards whose technology is in `stale`. */
  function Drop(cs: seq<Child>, stale: set<Tech>): (r: seq<Child>)
    ensures Keys(r) == Keys(cs) - stale
  {
    if cs == [] then []
    else
      KeysAppend([cs[0]], cs[1..]);
      assert cs == [cs[0]] + cs[1..];
      var rest := Drop(cs[1..], stale);
      KeysAppend([cs[0]], rest);
      if cs[0].MiniCard? && cs[0].card.technology in stale then rest
      else [cs[0]] + rest
  }

  /** `cs` without the first child equal to `c` (the container's list removal by reference). */
  function RemoveChild(cs: seq<Child>, c: Child): (r: seq<Child>)
  {
    if cs == [] then []
    else if cs[0] == c then cs[1..]
    else [cs[0]] + RemoveChild(cs[1..], c)
  }

  /** The mini-card children for a sequence of cards, in order. */
  function Cards(added: seq<MiniTechnologyCard>): (r: seq<Child>)
  {
    seq(|added|, k requires 0 <= k < |added| => MiniCard(added[k]))
  }

  /** The technologies of a sequence of cards, in order. */
  function TechsOf(added: seq<MiniTechnologyCard>): (r: seq<Tech>)
  {
    seq(|added|, k requires 0 <= k < |added| => added[k].technology)
  }

  /** The technologies for which the walk over `techs` creates a card: the
      dictionary starts with `existing`, and a technology found in it is
      removed from it instead of being created; the dictionary is not
      updated on a create, so a repeated technology is created again. */
  function Created(existing: set<Tech>, techs: seq<Tech>): (r: seq<Tech>)
    ensures forall t :: t in r ==> t in techs
    ensures |r| <= |techs|
  {
    if techs == [] then []
    else
      var seen := techs[..|techs| - 1];
      var t := techs[|techs| - 1];
      Created(existing, seen) + (if t in existing && t !in seen then [] else [t])
  }

  /** Reference definition: the technologies of `techs` that have no card yet, in list order. */
  function Missing(existing: set<Tech>, techs: seq<Tech>): (r: seq<Tech>)
    ensures Elems(r) == Elems(techs) - existing
  {
    if techs == [] then []
    else
      var seen := techs[..|techs| - 1];
      var t := techs[|techs| - 1];
      var tail := if t in existing then [] else [t];
      assert techs == seen + [t];
      ElemsAppend(seen, [t]);
      ElemsAppend(Missing(existing, seen), tail);
      Missing(existing, seen) + tail
  }

  /** The technologies whose cards are left in the dictionary after the walk, and so removed. */
  function Stale(cs: seq<Child>, techs: seq<Tech>): (stale: set<Tech>)
  {
    Keys(cs) - Elems(techs)
  }

  /** `after` is the container `before` once synchronised with `techs`, and
      `added` are the cards the synchronisation created, in creation order. */
  predicate Synced(before: seq<Child>, techs: seq<Tech>, after: seq<Child>, added: seq<MiniTechnologyCard>)
  {
    && TechsOf(added) == Created(Keys(before), techs)
    && after == Drop(before, Stale(before, techs)) + Cards(added)
  }

  // ---------------------------------------------------------------------
  // Lemmas about the children and the filter functions
  // ---------------------------------------------------------------------

  lemma ElemsAppend(a: seq<Tech>, b: seq<Tech>)
    ensures Elems(a + b) == Elems(a) + Elems(b)
  {
    assert forall t :: t in a + b <==> t in a || t in b;
  }

  lemma ElemsEmpty(techs: seq<Tech>)
    ensures Elems(techs) == {} ==> techs == []
  {
    assert techs != [] ==> techs[0] in Elems(techs);
  }

  lemma KeysAppend(a: seq<Child>, b: seq<Child>)
    ensures Keys(a + b) == Keys(a) + Keys(b)
  {
    assert forall c :: c in a + b <==> c in a || c in b;
  }

  lemma KeysOfCards(added: seq<MiniTechnologyCard>)
    ensures Keys(Cards(added)) == Elems(TechsOf(added))
  {
    forall t | t in Elems(TechsOf(added)) ensures t in Keys(Cards(added)) {
      var k :| 0 <= k < |added| && TechsOf(added)[k] == t;
      assert Cards(added)[k] == MiniCard(added[k]);
    }
    forall t | t in Keys(Cards(added)) ensures t in Elems(TechsOf(added)) {
      var c :| c in Cards(added) && c.MiniCard? && c.card.technology == t;
      var k :| 0 <= k < |added| && Cards(added)[k] == c;
      assert TechsOf(added)[k] == t;
    }
  }

  /** Unique keys of a concatenation: both parts unique and their keys disjoint. */
  lemma {:induction false} UniqueKeysAppend(a: seq<Child>, b: seq<Child>)
    ensures UniqueKeys(a + b) <==> UniqueKeys(a) && UniqueKeys(b) && Keys(a) !! Keys(b)
  {
    if a == [] {
      assert a + b == b;
    } else {
      assert (a + b)[1..] == a[1..] + b;
      assert a == [a[0]] + a[1..];
      KeysAppend([a[0]], a[1..]);
      KeysAppend(a[1..], b);
      UniqueKeysAppend(a[1..], b);
    }
  }

  /** The children kept by Drop are exactly the other controls and the cards
      whose technology is not stale. */
  lemma {:induction false} DropMembers(cs: seq<Child>, stale: set<Tech>, c: Child)
    ensures c in Drop(cs, stale) <==> c in cs && !(c.MiniCard? && c.card.technology in stale)
  {
    if cs != [] {
      DropMembers(cs[1..], stale, c);
      assert c in cs <==> c == cs[0] || c in cs[1..];
    }
  }

  /** Extending a container by one child, for the dictionary-building walk. */
  lemma IndexStep(prefix: seq<Child>, child: Child)
    ensures UniqueKeys(prefix + [child]) <==>
              UniqueKeys(prefix) && !(child.MiniCard? && child.card.technology in Keys(prefix))
    ensures Keys(prefix + [child]) == Keys(prefix) + (if child.MiniCard? then {child.card.technology} else {})
  {
    UniqueKeysAppend(prefix, [child]);
    KeysAppend(prefix, [child]);
    assert [child][1..] == [];
  }

  /** Every prefix of a container with unique keys has unique keys. */
  lemma UniqueKeysPrefix(cs: seq<Child>, n: nat)
    requires n <= |cs|
    ensures UniqueKeys(cs) ==> UniqueKeys(cs[..n])
  {
    assert cs == cs[..n] + cs[n..];
    UniqueKeysAppend(cs[..n], cs[n..]);
  }

  lemma {:induction false} DropUnique(cs: seq<Child>, stale: set<Tech>)
    requires UniqueKeys(cs)
    ensures UniqueKeys(Drop(cs, stale))
  {
    if cs != [] {
      DropUnique(cs[1..], stale);
    }
  }

  /** Dropping technologies that have no card changes nothing. */
  lemma {:induction false} DropNothing(cs: seq<Child>, stale: set<Tech>)
    requires Keys(cs) !! stale
    ensures Drop(cs, stale) == cs
  {
    if cs != [] {
      assert cs[0] in cs;
      assert Keys(cs[1..]) <= Keys(cs) by { assert forall c :: c in cs[1..] ==> c in cs; }
      DropNothing(cs[1..], stale);
    }
  }

  lemma {:induction false} DropDrop(cs: seq<Child>, first: set<Tech>, second: set<Tech>)
    ensures Drop(Drop(cs, first), second) == Drop(cs, first + second)
  {
    if cs != [] {
      DropDrop(cs[1..], first, second);
    }
  }

  lemma {:induction false} RemoveChildAppend(a: seq<Child>, b: seq<Child>, c: Child)
    requires c in a
    ensures RemoveChild(a + b, c) == RemoveChild(a, c) + b
  {
    assert (a + b)[0] == a[0];
    if a[0] != c {
      assert (a + b)[1..] == a[1..] + b;
      RemoveChildAppend(a[1..], b, c);
    }
  }

  /** Removing a card object from a container whose technologies are unique
      removes exactly the cards of that card's technology. */
  lemma {:induction false} RemoveSoleCard(cs: seq<Child>, card: MiniTechnologyCard)
    requires UniqueKeys(cs)
    requires MiniCard(card) in cs
    ensures RemoveChild(cs, MiniCard(card)) == Drop(cs, {card.technology})
  {
    if cs[0] == MiniCard(card) {
      DropNothing(cs[1..], {card.technology});
    } else {
      assert !HasTech(cs[0], card.technology) by {
        assert card.technology in Keys(cs[1..]) by { assert MiniCard(card) in cs[1..]; }
      }
      RemoveSoleCard(cs[1..], card);
    }
  }

  /** One step of removing the stale cards: removing the card object of a
      technology not yet removed drops that technology's card and nothing else. */
  lemma RemoveStaleCard(before: seq<Child>, removed: set<Tech>, added: seq<MiniTechnologyCard>, card: MiniTechnologyCard)
    requires UniqueKeys(before)
    requires MiniCard(card) in before && card.technology !in removed
    ensures RemoveChild(Drop(before, removed) + Cards(added), MiniCard(card))
            == Drop(before, removed + {card.technology}) + Cards(added)
  {
    DropMembers(before, removed, MiniCard(card));
    RemoveChildAppend(Drop(before, removed), Cards(added), MiniCard(card));
    DropUnique(before, removed);
    RemoveSoleCard(Drop(before, removed), card);
    DropDrop(before, removed, {card.technology});
  }

  // ---------------------------------------------------------------------
  // Lemmas about the walk over the new list
  // ---------------------------------------------------------------------

  /** One step of the walk over the new list, on the dictionary, the cards created and their technologies. */
  lemma DictionaryStep(index: map<Tech, MiniTechnologyCard>, seen: seq<Tech>, t: Tech)
    ensures t in index - Elems(seen) <==> t in index && t !in seen
    ensures index - Elems(seen + [t]) == (index - Elems(seen)) - {t}
    ensures t !in index - Elems(seen) ==> index - Elems(seen + [t]) == index - Elems(seen)
  {
    ElemsAppend(seen, [t]);
    assert Elems([t]) == {t};
    assert index - (Elems(seen) + {t}) == (index - Elems(seen)) - {t};
  }

  lemma {:induction false} CreatedSnoc(existing: set<Tech>, seen: seq<Tech>, t: Tech)
    ensures Created(existing, seen + [t]) ==
              Created(existing, seen) + (if t in existing && t !in seen then [] else [t])
  {
    assert (seen + [t])[..|seen|] == seen;
  }

  lemma CardsSnoc(added: seq<MiniTechnologyCard>, mini: MiniTechnologyCard)
    ensures Cards(added + [mini]) == Cards(added) + [MiniCard(mini)]
    ensures TechsOf(added + [mini]) == TechsOf(added) + [mini.technology]
  {
  }

  /** Every listed technology that has no card yet gets one created. */
  lemma {:induction false} CreatedCoversMissing(existing: set<Tech>, techs: seq<Tech>, t: Tech)
    requires t in techs && t !in existing
    ensures t in Created(existing, techs)
  {
    var seen := techs[..|techs| - 1];
    assert techs == seen + [techs[|techs| - 1]];
    if t != techs[|techs| - 1] {
      CreatedCoversMissing(existing, seen, t);
    }
  }

  /** With a repeat-free list, the walk creates exactly the missing
      technologies, in list order. */
  lemma {:induction false} CreatedWithoutRepeats(existing: set<Tech>, techs: seq<Tech>)
    requires NoRepeats(techs)
    ensures Created(existing, techs) == Missing(existing, techs)
  {
    if techs != [] {
      var seen := techs[..|techs| - 1];
      assert techs[|techs| - 1] !in seen;
      CreatedWithoutRepeats(existing, seen);
    }
  }

  lemma {:induction false} MissingNoRepeats(existing: set<Tech>, techs: seq<Tech>)
    requires NoRepeats(techs)
    ensures NoRepeats(Missing(existing, techs))
  {
    if techs != [] {
      var seen := techs[..|techs| - 1];
      var t := techs[|techs| - 1];
      MissingNoRepeats(existing, seen);
      assert t !in Elems(seen);
      assert t !in Missing(existing, seen) by {
        assert Elems(Missing(existing, seen)) <= Elems(seen);
      }
    }
  }

  lemma {:induction false} CardsUnique(added: seq<MiniTechnologyCard>)
    requires NoRepeats(TechsOf(added))
    ensures UniqueKeys(Cards(added))
  {
    if added != [] {
      assert Cards(added)[1..] == Cards(added[1..]);
      assert TechsOf(added)[1..] == TechsOf(added[1..]);
      assert Cards(added)[0] == MiniCard(added[0]);
      assert NoRepeats(TechsOf(added[1..])) by {
        forall i, j | 0 <= i < j < |added| - 1 ensures TechsOf(added[1..])[i] != TechsOf(added[1..])[j] {
          assert TechsOf(added)[i + 1] != TechsOf(added)[j + 1];
        }
      }
      CardsUnique(added[1..]);
      KeysOfCards(added[1..]);
      assert added[0].technology !in TechsOf(added[1..]) by {
        forall j | 0 <= j < |added| - 1 ensures TechsOf(added[1..])[j] != added[0].technology {
          assert TechsOf(added)[0] != TechsOf(added)[j + 1];
        }
      }
    }
  }

  // ---------------------------------------------------------------------
  // Properties of a synchronisation
  // ---------------------------------------------------------------------

  /** After a synchronisation the technologies with a card are exactly the
      listed ones. The old children kept are exactly the other controls and
      the cards of listed technologies, in their old order; the created cards
      follow them. */
  lemma SyncedContents(before: seq<Child>, techs: seq<Tech>, after: seq<Child>, added: seq<MiniTechnologyCard>)
    requires Synced(before, techs, after, added)
    ensures Keys(after) == Elems(techs)
    ensures forall c :: c in after[..|after| - |added|] <==>
                        c in before && (c.OtherControl? || c.card.technology in techs)
    ensures after[..|after| - |added|] == Drop(before, Stale(before, techs))
    ensures after[|after| - |added|..] == Cards(added)
  {
    var kept := Drop(before, Stale(before, techs));
    assert after[..|after| - |added|] == kept;
    KeysAppend(kept, Cards(added));
    KeysOfCards(added);
    forall t | t in Elems(techs) ensures t in Keys(after) {
      if t !in Keys(before) {
        CreatedCoversMissing(Keys(before), techs, t);
      }
    }
    forall c ensures c in kept <==> c in before && (c.OtherControl? || c.card.technology in techs) {
      DropMembers(before, Stale(before, techs), c);
      if c in before && c.MiniCard? {
        assert c.card.technology in Keys(before);
      }
    }
  }

  /** Synchronising a container with unique keys against a repeat-free list
      leaves a container with unique keys. */
  lemma SyncedUnique(before: seq<Child>, techs: seq<Tech>, mid: seq<Child>, added: seq<MiniTechnologyCard>)
    requires UniqueKeys(before) && NoRepeats(techs)
    requires Synced(before, techs, mid, added)
    ensures UniqueKeys(mid)
  {
    var kept := Drop(before, Stale(before, techs));
    CreatedWithoutRepeats(Keys(before), techs);
    MissingNoRepeats(Keys(before), techs);
    CardsUnique(added);
    DropUnique(before, Stale(before, techs));
    KeysOfCards(added);
    assert Keys(kept) !! Keys(Cards(added));
    UniqueKeysAppend(kept, Cards(added));
  }

  /** Synchronising a second time with the same repeat-free list succeeds and
      changes nothing: no card is created and none removed. */
  lemma SyncIdempotent(before: seq<Child>, techs: seq<Tech>, mid: seq<Child>, added: seq<MiniTechnologyCard>)
    requires UniqueKeys(before) && NoRepeats(techs)
    requires Synced(before, techs, mid, added)
    ensures UniqueKeys(mid)
    ensures Synced(mid, techs, mid, [])
    ensures forall after, again :: Synced(mid, techs, after, again) ==> after == mid && again == []
  {
    SyncedUnique(before, techs, mid, added);
    SyncedContents(before, techs, mid, added);
    CreatedWithoutRepeats(Keys(mid), techs);
    var again := Missing(Keys(mid), techs);
    ElemsEmpty(again);
    DropNothing(mid, Stale(mid, techs));
    assert Cards([]) == [];
    forall after, again | Synced(mid, techs, after, again) ensures after == mid && again == [] {
      assert |TechsOf(again)| == 0;
    }
  }

  /** A repeated technology in the list is not deduplicated: syncing an
      empty container with [t, t] creates two cards for t, so the next sync
      finds a duplicate key and fails. */
  lemma RepeatedTechBreaksNextSync(t: Tech, after: seq<Child>, added: seq<MiniTechnologyCard>)
    requires Synced([], [t, t], after, added)
    ensures |added| == 2 && added[0].technology == t && added[1].technology == t
    ensures !UniqueKeys(after)
  {
    CreatedTwice(t);
    assert |added| == 2 && TechsOf(added)[0] == t && TechsOf(added)[1] == t;
    assert after == Cards(added) by {
      assert Drop([], Stale([], [t, t])) == [];
    }
    TwoCardsClash(added);
  }

  lemma CreatedTwice(t: Tech)
    ensures Keys([]) == {}
    ensures Created({}, [t, t]) == [t, t]
  {
    assert [t, t][..1] == [t];
    assert Created({}, [t]) == [t] by { assert [t][..0] == []; }
  }

  lemma TwoCardsClash(added: seq<MiniTechnologyCard>)
    requires |added| == 2 && added[0].technology == added[1].technology
    ensures !UniqueKeys(Cards(added))
  {
    var cs := Cards(added);
    assert cs[0] == MiniCard(added[0]);
    assert cs[1..] == [MiniCard(added[1])];
    assert added[0].technology in Keys(cs[1..]) by { assert MiniCard(added[1]) in cs[1..]; }
  }

  /** A repeat of a technology that already has a card creates a second card for it. */
  lemma RepeatOfExistingTechCreatesCard(t: Tech)
    ensures Created({t}, [t, t]) == [t]
    ensures Created({t}, [t]) == []
  {
    assert [t, t][..1] == [t];
  }
}
