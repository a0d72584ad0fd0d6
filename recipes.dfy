/**
 * The recipe app's state container (Assignment4.js): the `recipeReducer`
 * that computes a new state from the current state and a dispatched action,
 * the `RecipeProvider` that holds the single state value and drives an
 * ingredient search through a fixed sequence of dispatches, and the three
 * favourites wrappers.
 *
 * The remote lookup is not modelled: its result is a `Lookup` parameter.
 * The "Duplicate" alert the reducer shows is returned as a flag.
 */
module Recipes {
  import opened JsBuiltins

  /** A recipe as the lookup service returns it. */
  datatype Meal = Meal(idMeal: string, strMeal: string, strMealThumb: string)

  /** A saved recipe with the user's free-text note. */
  datatype Fav = Fav(meal: Meal, note: string)

  datatype State = State(
    searchResults: seq<Meal>,
    favorites: seq<Fav>,
    loading: bool,
    error: Option<string>)

  /** The six `type` strings the reducer's switch handles. */
  const HandledTypes: set<string> := {
    "SET_LOADING", "SET_SEARCH_RESULTS", "SET_ERROR",
    "ADD_FAVORITE", "REMOVE_FAVORITE", "UPDATE_NOTE"}

  /** Any other `type` string, which falls through to the `default` case. */
  type UnhandledType = kind: string | kind !in HandledTypes witness ""

  /**
   * The seven cases of the reducer's switch. `RemoveFavorite` carries the
   * payload's `idMeal`, the only field the reducer reads.
   */
  datatype Action =
    | SetLoading
    | SetSearchResults(meals: seq<Meal>)
    | SetError(message: string)
    | AddFavorite(meal: Meal)
    | RemoveFavorite(idMeal: string)
    | UpdateNote(mealId: string, note: string)
    | Unrecognised(kind: UnhandledType)

  /** The new state, and whether the duplicate-favourite alert was raised. */
  datatype Reduced = Reduced(state: State, duplicate: bool)

  const InitialState: State := State([], [], false, None)

  const NoRecipesMessage: string := "No recipes found for this ingredient."
  const FetchFailedMessage: string := "Could not fetch recipes."

  // ---------------------------------------------------------------------------
  // Favourites and their identifiers

  function IdOf(f: Fav): string
  {
    f.meal.idMeal
  }

  function Ids(favs: seq<Fav>): seq<string>
  {
    Map(IdOf, favs)
  }

  /** The favourites hold at most one entry per recipe identifier. */
  predicate DistinctIds(favs: seq<Fav>)
  {
    Distinct(Ids(favs))
  }

  function HasId(id: string): Fav -> bool
  {
    (f: Fav) => f.meal.idMeal == id
  }

  function LacksId(id: string): Fav -> bool
  {
    (f: Fav) => f.meal.idMeal != id
  }

  function WithNote(id: string, note: string): Fav -> Fav
  {
    (f: Fav) => if f.meal.idMeal == id then Fav(f.meal, note) else f
  }

  // ---------------------------------------------------------------------------
  // The reducer

  /** `recipeReducer(state, action)`; the flag is the "Duplicate" alert. */
  function Reduce(s: State, a: Action): (r: Reduced)
    ensures r.duplicate <==> a.AddFavorite? && a.meal.idMeal in Ids(s.favorites)
    ensures r.duplicate ==> r.state == s
  {
    match a
    case SetLoading =>
      Reduced(s.(loading := true, error := None), false)
    case SetSearchResults(meals) =>
      Reduced(s.(searchResults := meals, loading := false, error := None), false)
    case SetError(message) =>
      Reduced(s.(error := Some(message), loading := false), false)
    case AddFavorite(meal) =>
      var found := Find(HasId(meal.idMeal), s.favorites);
      assert found.None? <==> meal.idMeal !in Ids(s.favorites) by {
        var ids := Ids(s.favorites);
        if meal.idMeal in ids {
          var i :| 0 <= i < |ids| && ids[i] == meal.idMeal;
          assert HasId(meal.idMeal)(s.favorites[i]);
        }
        if found.Some? {
          var i :| 0 <= i < |s.favorites| && s.favorites[i] == found.value;
          assert ids[i] == meal.idMeal;
        }
      }
      if found.Some? then Reduced(s, true)
      else Reduced(s.(favorites := [Fav(meal, "")] + s.favorites), false)
    case RemoveFavorite(id) =>
      Reduced(s.(favorites := Filter(LacksId(id), s.favorites)), false)
    case UpdateNote(id, note) =>
      Reduced(s.(favorites := Map(WithNote(id, note), s.favorites)), false)
    case Unrecognised(_) =>
      Reduced(s, false)
  }

  /** Dispatching a sequence of actions in order, one after the other. */
  function ApplyAll(s: State, actions: seq<Action>): State
    decreases |actions|
  {
    if actions == [] then s else ApplyAll(Reduce(s, actions[0]).state, actions[1..])
  }

  // ---------------------------------------------------------------------------
  // Properties of single actions

  /** A recipe already in the favourites: nothing changes and the alert is raised. */
  lemma AddFavoriteDuplicate(s: State, meal: Meal)
    requires meal.idMeal in Ids(s.favorites)
    ensures Reduce(s, AddFavorite(meal)) == Reduced(s, true)
  {
  }

  /** A new recipe goes to the front with an empty note; everything else stays. */
  lemma AddFavoriteNew(s: State, meal: Meal)
    requires meal.idMeal !in Ids(s.favorites)
    ensures var r := Reduce(s, AddFavorite(meal));
      && !r.duplicate
      && |r.state.favorites| == |s.favorites| + 1
      && r.state.favorites[0] == Fav(meal, "")
      && (forall i :: 0 <= i < |s.favorites| ==> r.state.favorites[i + 1] == s.favorites[i])
      && r.state.searchResults == s.searchResults
      && r.state.loading == s.loading
      && r.state.error == s.error
  {
  }

  /**
   * Removing keeps, in their original order, exactly the favourites whose
   * identifier differs from the given one, each as often as before.
   */
  lemma RemoveFavoriteKeepsOthers(s: State, id: string)
    ensures var r := Reduce(s, RemoveFavorite(id)).state;
      && IsSubseq(r.favorites, s.favorites)
      && (forall f :: f in r.favorites <==> f in s.favorites && f.meal.idMeal != id)
      && (forall f :: multiset(r.favorites)[f] == if f.meal.idMeal != id then multiset(s.favorites)[f] else 0)
      && r == s.(favorites := r.favorites)
  {
    FilterIsSubseq(LacksId(id), s.favorites);
    FilterMembers(LacksId(id), s.favorites);
    forall f ensures multiset(Filter(LacksId(id), s.favorites))[f] == if f.meal.idMeal != id then multiset(s.favorites)[f] else 0 {
      FilterMultiplicity(LacksId(id), s.favorites, f);
    }
  }

  /** Removing an identifier that is not among the favourites changes nothing. */
  lemma RemoveFavoriteAbsent(s: State, id: string)
    requires id !in Ids(s.favorites)
    ensures Reduce(s, RemoveFavorite(id)) == Reduced(s, false)
  {
    forall f | f in s.favorites ensures LacksId(id)(f) {
      var i :| 0 <= i < |s.favorites| && s.favorites[i] == f;
      assert Ids(s.favorites)[i] == f.meal.idMeal;
    }
    FilterKeepsAll(LacksId(id), s.favorites);
  }

  /** Removing the same identifier twice is removing it once. */
  lemma RemoveFavoriteIdempotent(s: State, id: string)
    ensures var once := Reduce(s, RemoveFavorite(id)).state;
      Reduce(once, RemoveFavorite(id)).state == once
  {
    FilterIdempotent(LacksId(id), s.favorites);
  }

  /**
   * With distinct identifiers, removing takes away exactly one favourite when
   * the identifier is present and none when it is absent.
   */
  lemma {:induction false} RemoveFavoriteLength(favs: seq<Fav>, id: string)
    requires DistinctIds(favs)
    ensures |Filter(LacksId(id), favs)| == |favs| - if id in Ids(favs) then 1 else 0
    decreases |favs|
  {
    if favs != [] {
      var rest := favs[1..];
      assert Ids(favs) == [IdOf(favs[0])] + Ids(rest) by {
        assert forall i :: 0 <= i < |rest| ==> Ids(favs)[i + 1] == Ids(rest)[i];
      }
      assert DistinctIds(rest) by {
        forall i, j | 0 <= i < j < |rest| ensures Ids(rest)[i] != Ids(rest)[j] {
          assert Ids(rest)[i] == Ids(favs)[i + 1] && Ids(rest)[j] == Ids(favs)[j + 1];
        }
      }
      RemoveFavoriteLength(rest, id);
      if IdOf(favs[0]) == id {
        assert id !in Ids(rest) by {
          forall j | 0 <= j < |Ids(rest)| ensures Ids(rest)[j] != id {
            assert Ids(rest)[j] == Ids(favs)[j + 1];
          }
        }
      }
    }
  }

  /**
   * Updating a note keeps the length, the order and the recipe of every
   * favourite, and changes the note of exactly the entries with that identifier.
   */
  lemma UpdateNoteChangesOnlyNote(s: State, id: string, note: string)
    ensures var r := Reduce(s, UpdateNote(id, note)).state;
      && |r.favorites| == |s.favorites|
      && (forall i :: 0 <= i < |s.favorites| ==>
            && r.favorites[i].meal == s.favorites[i].meal
            && r.favorites[i].note == if s.favorites[i].meal.idMeal == id then note else s.favorites[i].note)
      && r == s.(favorites := r.favorites)
  {
  }

  /** Updating the note of an identifier that is not among the favourites changes nothing. */
  lemma UpdateNoteAbsent(s: State, id: string, note: string)
    requires id !in Ids(s.favorites)
    ensures Reduce(s, UpdateNote(id, note)) == Reduced(s, false)
  {
    var r := Reduce(s, UpdateNote(id, note)).state;
    forall i | 0 <= i < |s.favorites| ensures r.favorites[i] == s.favorites[i] {
      assert Ids(s.favorites)[i] == s.favorites[i].meal.idMeal;
    }
  }

  /** Of two successive note updates on one identifier the second wins. */
  lemma UpdateNoteLastWins(s: State, id: string, first: string, second: string)
    ensures var once := Reduce(s, UpdateNote(id, first)).state;
      Reduce(once, UpdateNote(id, second)) == Reduce(s, UpdateNote(id, second))
  {
  }

  /** The three status actions never touch the favourites. */
  lemma StatusActions(s: State, meals: seq<Meal>, message: string)
    ensures var r := Reduce(s, SetLoading).state;
      r.loading && r.error == None && r.searchResults == s.searchResults && r.favorites == s.favorites
    ensures var r := Reduce(s, SetSearchResults(meals)).state;
      !r.loading && r.error == None && r.searchResults == meals && r.favorites == s.favorites
    ensures var r := Reduce(s, SetError(message)).state;
      !r.loading && r.error == Some(message) && r.searchResults == s.searchResults && r.favorites == s.favorites
  {
  }

  /** An action of any other type returns the state unchanged. */
  lemma UnrecognisedIsNoOp(s: State, kind: UnhandledType)
    ensures Reduce(s, Unrecognised(kind)) == Reduced(s, false)
  {
  }

  /** Every action keeps the favourites free of duplicate identifiers. */
  lemma ReducePreservesDistinctIds(s: State, a: Action)
    requires DistinctIds(s.favorites)
    ensures DistinctIds(Reduce(s, a).state.favorites)
  {
    var r := Reduce(s, a).state;
    match a
    case AddFavorite(meal) =>
      if !Reduce(s, a).duplicate {
        var ids := Ids(s.favorites);
        var ids' := Ids(r.favorites);
        assert ids'[0] == meal.idMeal;
        forall i | 0 <= i < |ids| ensures ids'[i + 1] == ids[i] {
          assert r.favorites[i + 1] == s.favorites[i];
        }
        forall i, j | 0 <= i < j < |ids'| ensures ids'[i] != ids'[j] {
          assert ids'[j] == ids[j - 1];
          if i > 0 {
            assert ids'[i] == ids[i - 1];
          }
        }
      }
    case RemoveFavorite(id) =>
      MapFilterIsSubseq(IdOf, LacksId(id), s.favorites);
      SubseqDistinct(Ids(r.favorites), Ids(s.favorites));
    case UpdateNote(id, note) =>
      assert Ids(r.favorites) == Ids(s.favorites);
    case _ =>
  }

  /** Any sequence of dispatches keeps the favourites free of duplicate identifiers. */
  lemma {:induction false} ApplyAllPreservesDistinctIds(s: State, actions: seq<Action>)
    requires DistinctIds(s.favorites)
    ensures DistinctIds(ApplyAll(s, actions).favorites)
    decreases |actions|
  {
    if actions != [] {
      ReducePreservesDistinctIds(s, actions[0]);
      ApplyAllPreservesDistinctIds(Reduce(s, actions[0]).state, actions[1..]);
    }
  }

  // ---------------------------------------------------------------------------
  // The search driver

  /**
   * What the lookup produced: a failure of the request or of parsing its body,
   * or the body's `meals` field, which is `None` when it is `null`.
   */
  datatype Lookup = Failure | Success(meals: Option<seq<Meal>>)

  /**
   * The actions `searchByIngredient` dispatches, in order. Only the empty
   * string is falsy, so a blank ingredient still goes to the lookup; an empty
   * `meals` array is truthy and is dispatched as the results.
   */
  function SearchDispatches(ingredient: string, outcome: Lookup): (acts: seq<Action>)
    ensures 1 <= |acts| <= 3
    ensures acts[0] == if ingredient == "" then SetSearchResults([]) else SetLoading
  {
    if ingredient == "" then [SetSearchResults([])]
    else
      [SetLoading] +
      match outcome
      case Success(Some(meals)) => [SetSearchResults(meals)]
      case Success(None) => [SetError(NoRecipesMessage), SetSearchResults([])]
      case Failure => [SetError(FetchFailedMessage)]
  }

  /**
   * The three outcomes of a search, as the dispatches leave the state. The
   * favourites are never touched and loading always ends. When the lookup
   * finds no meals the "No recipes found" message is dispatched and then
   * cleared again by the empty results that follow it.
   */
  lemma SearchOutcome(s: State, ingredient: string, outcome: Lookup)
    ensures var t := ApplyAll(s, SearchDispatches(ingredient, outcome));
      && t.favorites == s.favorites
      && !t.loading
      && (ingredient == "" ==> t.searchResults == [] && t.error == None)
      && (ingredient != "" && outcome == Success(None) ==>
            && SetError(NoRecipesMessage) in SearchDispatches(ingredient, outcome)
            && t.searchResults == [] && t.error == None)
      && (ingredient != "" && outcome.Success? && outcome.meals.Some? ==>
            t.searchResults == outcome.meals.value && t.error == None)
      && (ingredient != "" && outcome.Failure? ==>
            t.searchResults == s.searchResults && t.error == Some(FetchFailedMessage))
  {
    var acts := SearchDispatches(ingredient, outcome);
    var s1 := Reduce(s, acts[0]).state;
    if ingredient != "" {
      assert acts[1..] == SearchDispatches(ingredient, outcome)[1..];
      var s2 := Reduce(s1, acts[1]).state;
      if outcome == Success(None) {
        var s3 := Reduce(s2, acts[2]).state;
        assert ApplyAll(s2, acts[2..]) == s3 by {
          assert acts[2..][1..] == [];
        }
      } else {
        assert ApplyAll(s1, acts[1..]) == s2 by {
          assert acts[1..][1..] == [];
        }
      }
    }
  }

  // ---------------------------------------------------------------------------
  // The provider that owns the state

  /** `RecipeProvider`: the single state value behind `useReducer`, and the
      operations it hands to the screens. */
  class RecipeProvider {
    var state: State

    ghost predicate Valid()
      reads this
    {
      DistinctIds(state.favorites)
    }

    /** `useReducer(recipeReducer, initialState)`. */
    constructor ()
      ensures Valid()
      ensures state == InitialState
      ensures state.searchResults == [] && state.favorites == [] && !state.loading && state.error == None
    {
      state := InitialState;
    }

    /** `dispatch(action)`: replace the state by the reducer's result. */
    method Dispatch(a: Action) returns (duplicate: bool)
      requires Valid()
      modifies this
      ensures Valid()
      ensures Reduced(state, duplicate) == Reduce(old(state), a)
    {
      ReducePreservesDistinctIds(state, a);
      var r := Reduce(state, a);
      state, duplicate := r.state, r.duplicate;
    }

    /** `searchByIngredient(ingredient)`, with the lookup's result as a parameter. */
    method SearchByIngredient(ingredient: string, outcome: Lookup)
      requires Valid()
      modifies this
      ensures Valid()
      ensures state == ApplyAll(old(state), SearchDispatches(ingredient, outcome))
      ensures state.favorites == old(state.favorites) && !state.loading
      ensures ingredient == "" ==> state.searchResults == [] && state.error == None
      ensures ingredient != "" && outcome.Success? ==>
        state.searchResults == (if outcome.meals.Some? then outcome.meals.value else []) && state.error == None
      ensures ingredient != "" && outcome.Failure? ==>
        state.searchResults == old(state.searchResults) && state.error == Some(FetchFailedMessage)
    {
      SearchOutcome(state, ingredient, outcome);
      ghost var acts := SearchDispatches(ingredient, outcome);
      var _ := Dispatch(if ingredient == "" then SetSearchResults([]) else SetLoading);
      if ingredient == "" {
        return;
      }
      assert acts[1..] == SearchDispatches(ingredient, outcome)[1..];
      match outcome {
        case Success(Some(meals)) =>
          var _ := Dispatch(SetSearchResults(meals));
        case Success(None) =>
          var _ := Dispatch(SetError(NoRecipesMessage));
          var _ := Dispatch(SetSearchResults([]));
        case Failure =>
          var _ := Dispatch(SetError(FetchFailedMessage));
      }
    }

    /** `addFavorite(meal)`; the result is the duplicate alert. */
    method AddFavorite(meal: Meal) returns (duplicate: bool)
      requires Valid()
      modifies this
      ensures Valid()
      ensures duplicate <==> meal.idMeal in Ids(old(state.favorites))
      ensures duplicate ==> state == old(state)
      ensures !duplicate ==> state == old(state).(favorites := [Fav(meal, "")] + old(state.favorites))
    {
      duplicate := Dispatch(Action.AddFavorite(meal));
    }

    /** `removeFavorite(meal)`: the reducer reads only the meal's identifier. */
    method RemoveFavorite(meal: Meal)
      requires Valid()
      modifies this
      ensures Valid()
      ensures IsSubseq(state.favorites, old(state.favorites))
      ensures forall f :: f in state.favorites <==> f in old(state.favorites) && f.meal.idMeal != meal.idMeal
      ensures |state.favorites| == |old(state.favorites)| - if meal.idMeal in Ids(old(state.favorites)) then 1 else 0
      ensures state == old(state).(favorites := Filter(LacksId(meal.idMeal), old(state.favorites)))
    {
      RemoveFavoriteKeepsOthers(state, meal.idMeal);
      RemoveFavoriteLength(state.favorites, meal.idMeal);
      var _ := Dispatch(Action.RemoveFavorite(meal.idMeal));
    }

    /** `updateNote(mealId, note)`. */
    method UpdateNote(mealId: string, note: string)
      requires Valid()
      modifies this
      ensures Valid()
      ensures |state.favorites| == |old(state.favorites)|
      ensures forall i :: 0 <= i < |state.favorites| ==>
        && state.favorites[i].meal == old(state.favorites[i].meal)
        && state.favorites[i].note == if old(state.favorites[i].meal.idMeal) == mealId then note else old(state.favorites[i].note)
      ensures state == old(state).(favorites := state.favorites)
    {
      var _ := Dispatch(Action.UpdateNote(mealId, note));
    }
  }
}
