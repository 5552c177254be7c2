/**
 * The research console window: its technology-card containers, the
 * reconciliation of a container with a list of technologies, and the grid
 * of current technology cards laid out in rows of two.
 */
module ResearchConsole {
  import opened Wrappers
  import opened TechnologyCards

  /** A full technology card in the grid; pressing it reports `technology`. */
  datatype TechnologyCard = TechnologyCard(technology: Tech, points: int, hasAccess: bool)

  /** The technology database component of the console entity. */
  datatype TechnologyDatabase = TechnologyDatabase(currentTechnologyCards: seq<Tech>, unlockedTechnologies: seq<Tech>)

  /** A box container holding child controls in order. */
  class BoxContainer {
    var children: seq<Child>

    constructor (children: seq<Child>)
      ensures this.children == children
    {
      this.children := children;
    }
  }

  /** Builds the dictionary from technology to mini-card over the children,
      failing (as Dictionary.Add throws) when two mini-cards share a technology. */
  method IndexCards(children: seq<Child>) returns (index: Option<map<Tech, MiniTechnologyCard>>)
    ensures index.Some? <==> UniqueKeys(children)
    ensures index.Some? ==> index.value.Keys == Keys(children)
    ensures index.Some? ==> forall t :: t in index.value ==> index.value[t].technology == t && MiniCard(index.value[t]) in children
  {
    var m: map<Tech, MiniTechnologyCard> := map[];
    for i := 0 to |children|
      invariant UniqueKeys(children[..i])
      invariant m.Keys == Keys(children[..i])
      invariant forall t :: t in m ==> m[t].technology == t && MiniCard(m[t]) in children[..i]
    {
      var child := children[i];
      assert children[..i + 1] == children[..i] + [child];
      IndexStep(children[..i], child);
      if child.MiniCard? {
        if child.card.technology in m {
          UniqueKeysPrefix(children, i + 1);
          return None;
        }
        m := m[child.card.technology := child.card];
      }
    }
    assert children[..|children|] == children;
    return Some(m);
  }

  /** Pairs consecutive cards into rows of two; the last row has one card when the count is odd. */
  function Rows<T>(cards: seq<T>): (rows: seq<seq<T>>)
  {
    if |cards| <= 2 then (if cards == [] then [] else [cards])
    else [cards[..2]] + Rows(cards[2..])
  }

  /** The concatenation of a sequence of rows. */
  function Flatten<T>(rows: seq<seq<T>>): (cards: seq<T>)
  {
    if rows == [] then [] else rows[0] + Flatten(rows[1..])
  }

  function Min(a: int, b: int): (m: int)
  {
    if a <= b then a else b
  }

  /** n cards give ceil(n/2) rows, and row k holds cards 2k and 2k+1. */
  lemma {:induction false} RowsShape<T>(cards: seq<T>)
    ensures |Rows(cards)| == (|cards| + 1) / 2
    ensures forall k :: 0 <= k < |Rows(cards)| ==> Rows(cards)[k] == cards[2 * k .. Min(2 * k + 2, |cards|)]
  {
    if |cards| > 2 {
      RowsShape(cards[2..]);
      forall k | 0 <= k < |Rows(cards)| ensures Rows(cards)[k] == cards[2 * k .. Min(2 * k + 2, |cards|)] {
        if k > 0 {
          assert Rows(cards)[k] == Rows(cards[2..])[k - 1];
        }
      }
    }
  }

  /** Reading the rows back in order gives the cards in list order. */
  lemma {:induction false} RowsFlatten<T>(cards: seq<T>)
    ensures Flatten(Rows(cards)) == cards
  {
    if |cards| > 2 {
      RowsFlatten(cards[2..]);
      assert Rows(cards)[1..] == Rows(cards[2..]);
      assert cards == cards[..2] + cards[2..];
    } else if cards != [] {
      assert Rows(cards)[1..] == [];
    }
  }

  /** Adding one card: at an even index it starts a new row, at an odd index
      it joins the last row. */
  lemma {:induction false} RowsSnoc<T>(cards: seq<T>, card: T)
    ensures |cards| % 2 == 1 ==> Rows(cards) != []
    ensures Rows(cards + [card]) ==
      if |cards| % 2 == 0 then Rows(cards) + [[card]]
      else Rows(cards)[..|Rows(cards)| - 1] + [Rows(cards)[|Rows(cards)| - 1] + [card]]
  {
    if |cards| > 2 {
      var rest := cards[2..];
      assert (cards + [card])[..2] == cards[..2];
      assert (cards + [card])[2..] == rest + [card];
      RowsSnoc(rest, card);
      assert Rows(cards + [card]) == [cards[..2]] + Rows(rest + [card]);
      assert Rows(cards) == [cards[..2]] + Rows(rest);
      if |cards| % 2 == 1 {
        RowsSnocOdd(cards[..2], Rows(rest), card);
      }
    } else if |cards| == 2 {
      assert (cards + [card])[..2] == cards;
      assert (cards + [card])[2..] == [card];
      assert Rows([card]) == [[card]];
    } else if |cards| == 1 {
      assert Rows(cards) == [cards];
      assert Rows(cards + [card]) == [cards + [card]];
    } else {
      assert cards + [card] == [card];
    }
  }

  /** Appending to the last row commutes with putting a first row in front. */
  lemma RowsSnocOdd<T>(first: seq<T>, rest: seq<seq<T>>, card: T)
    requires rest != []
    ensures [first] + (rest[..|rest| - 1] + [rest[|rest| - 1] + [card]])
            == ([first] + rest)[..|rest|] + [([first] + rest)[|rest|] + [card]]
  {
  }

  /** Whether the console's cards are enabled for the local player: true when
      there is no local entity, or the console has no access reader, or the
      reader lets the local entity in. */
  function HasAccess(hasLocalEntity: bool, hasAccessReader: bool, readerAllows: bool): bool
  {
    !hasLocalEntity || !hasAccessReader || readerAllows
  }

  /** The grid cards for a list of technologies. */
  function CardsFor(techs: seq<Tech>, points: int, hasAccess: bool): (r: seq<TechnologyCard>)
  {
    seq(|techs|, k requires 0 <= k < |techs| => TechnologyCard(techs[k], points, hasAccess))
  }

  class ResearchConsoleMenu {
    /** Mini-cards of the technologies that can be researched now. */
    const availableCards: BoxContainer
    /** Mini-cards of the unlocked technologies. */
    const unlockedCards: BoxContainer
    /** The grid of current technology cards, one entry per row. */
    var technologyCards: seq<seq<TechnologyCard>>

    predicate Valid()
    {
      availableCards != unlockedCards
    }

    constructor ()
      ensures Valid()
      ensures fresh(availableCards) && fresh(unlockedCards)
      ensures availableCards.children == [] && unlockedCards.children == [] && technologyCards == []
    {
      availableCards := new BoxContainer([]);
      unlockedCards := new BoxContainer([]);
      technologyCards := [];
    }

    /** Brings `container` in line with `technologies`: creates a card at the
        end for each technology without one, keeps the others where they are,
        and removes the cards of technologies no longer listed. `ok` is false
        when two existing mini-cards share a technology, in which case nothing
        changes. `added` are the cards created, in order. */
    method SyncTechnologyList(container: BoxContainer, technologies: seq<Tech>)
      returns (ok: bool, ghost added: seq<MiniTechnologyCard>)
      modifies container
      ensures ok <==> UniqueKeys(old(container.children))
      ensures ok ==> Synced(old(container.children), technologies, container.children, added)
      ensures ok ==> forall k :: 0 <= k < |added| ==> fresh(added[k])
      ensures !ok ==> container.children == old(container.children)
    {
      var index := IndexCards(container.children);
      if index.None? {
        return false, [];
      }
      ghost var before := container.children;
      var currentTechControls;
      currentTechControls, added := AddMissingCards(container, index.value, technologies);
      RemoveCards(container, currentTechControls, before, added);
      ok := true;
    }

    /** The walk over the new list: appends a fresh card for each technology
        not in the dictionary, and removes from the dictionary each one that
        is. Returns what is left of the dictionary and the cards created. */
    method AddMissingCards(container: BoxContainer, index: map<Tech, MiniTechnologyCard>, technologies: seq<Tech>)
      returns (currentTechControls: map<Tech, MiniTechnologyCard>, ghost added: seq<MiniTechnologyCard>)
      modifies container
      ensures currentTechControls == index - Elems(technologies)
      ensures TechsOf(added) == Created(index.Keys, technologies)
      ensures container.children == old(container.children) + Cards(added)
      ensures forall k :: 0 <= k < |added| ==> fresh(added[k])
    {
      currentTechControls := index;
      added := [];
      for i := 0 to |technologies|
        invariant container.children == old(container.children) + Cards(added)
        invariant currentTechControls == index - Elems(technologies[..i])
        invariant TechsOf(added) == Created(index.Keys, technologies[..i])
        invariant forall k :: 0 <= k < |added| ==> fresh(added[k])
      {
        var tech := technologies[i];
        assert technologies[..i + 1] == technologies[..i] + [tech];
        DictionaryStep(index, technologies[..i], tech);
        CreatedSnoc(index.Keys, technologies[..i], tech);
        if tech !in currentTechControls {
          var mini := new MiniTechnologyCard(tech);
          CardsSnoc(added, mini);
          container.children := container.children + [MiniCard(mini)];
          added := added + [mini];
        } else {
          currentTechControls := currentTechControls - {tech};
        }
      }
      assert technologies[..|technologies|] == technologies;
    }

    /** Removes from the container, by reference, the card of every
        technology left in the dictionary. The container holds the old
        children `before` (whose technologies are unique, and which hold every
        card of the dictionary) followed by the created cards. */
    method RemoveCards(container: BoxContainer, currentTechControls: map<Tech, MiniTechnologyCard>,
                       ghost before: seq<Child>, ghost added: seq<MiniTechnologyCard>)
      requires UniqueKeys(before) && container.children == before + Cards(added)
      requires forall t :: t in currentTechControls ==>
                 currentTechControls[t].technology == t && MiniCard(currentTechControls[t]) in before
      modifies container
      ensures container.children == Drop(before, currentTechControls.Keys) + Cards(added)
    {
      var stale := currentTechControls.Keys;
      ghost var removed: set<Tech> := {};
      assert Drop(before, {}) == before by { DropNothing(before, {}); }
      while stale != {}
        invariant stale !! removed && stale + removed == currentTechControls.Keys
        invariant container.children == Drop(before, removed) + Cards(added)
        decreases stale
      {
        var tech :| tech in stale;
        var techControl := currentTechControls[tech];
        RemoveStaleCard(before, removed, added, techControl);
        container.children := RemoveChild(container.children, MiniCard(techControl));
        stale := stale - {tech};
        removed := removed + {tech};
      }
      assert removed == currentTechControls.Keys;
    }

    /** Refreshes the panels: clears the grid, syncs the available cards, and
        when the console has a technology database lays its current cards out
        in rows of two and syncs the unlocked cards. `ok` is false when a sync
        met a duplicate key; the update stops there. */
    method UpdatePanels(points: int, available: seq<Tech>, database: Option<TechnologyDatabase>,
                        hasLocalEntity: bool, hasAccessReader: bool, readerAllows: bool)
      returns (ok: bool, ghost addedAvailable: seq<MiniTechnologyCard>, ghost addedUnlocked: seq<MiniTechnologyCard>)
      requires Valid()
      modifies this, availableCards, unlockedCards
      ensures Valid()
      ensures ok <==> (UniqueKeys(old(availableCards.children)) &&
                       (database.Some? ==> UniqueKeys(old(unlockedCards.children))))
      ensures UniqueKeys(old(availableCards.children)) ==>
                Synced(old(availableCards.children), available, availableCards.children, addedAvailable)
      ensures !UniqueKeys(old(availableCards.children)) ==> availableCards.children == old(availableCards.children)
      ensures technologyCards ==
                if UniqueKeys(old(availableCards.children)) && database.Some?
                then Rows(CardsFor(database.value.currentTechnologyCards, points,
                                   HasAccess(hasLocalEntity, hasAccessReader, readerAllows)))
                else []
      ensures if UniqueKeys(old(availableCards.children)) && database.Some? && UniqueKeys(old(unlockedCards.children))
              then Synced(old(unlockedCards.children), database.value.unlockedTechnologies, unlockedCards.children, addedUnlocked)
              else unlockedCards.children == old(unlockedCards.children)
    {
      technologyCards := [];
      addedUnlocked := [];
      ok, addedAvailable := SyncTechnologyList(availableCards, available);
      if !ok {
        return;
      }
      if database.None? {
        return;
      }
      ghost var synced := availableCards.children;
      var hasAccess := HasAccess(hasLocalEntity, hasAccessReader, readerAllows);
      var techList := database.value.currentTechnologyCards;
      for i := 0 to |techList|
        invariant technologyCards == Rows(CardsFor(techList[..i], points, hasAccess))
        invariant availableCards.children == synced
        invariant unlockedCards.children == old(unlockedCards.children)
      {
        var cardControl := TechnologyCard(techList[i], points, hasAccess);
        assert CardsFor(techList[..i + 1], points, hasAccess) == CardsFor(techList[..i], points, hasAccess) + [cardControl];
        RowsSnoc(CardsFor(techList[..i], points, hasAccess), cardControl);
        if i % 2 == 0 {
          technologyCards := technologyCards + [[cardControl]];
        } else {
          technologyCards := technologyCards[..|technologyCards| - 1] + [technologyCards[|technologyCards| - 1] + [cardControl]];
        }
      }
      assert techList[..|techList|] == techList;
      ok, addedUnlocked := SyncTechnologyList(unlockedCards, database.value.unlockedTechnologies);
    }
  }
}
