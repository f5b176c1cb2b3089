/**
 * The state the script keeps in module scope, `groceries` and `customRecipes`, and the
 * handlers that change it: the add-item form, a row's delete button, "clear expired",
 * the custom-recipe form and its delete buttons. Reading the suggestion is the one
 * handler that changes nothing.
 *
 * Saving to storage after each change, and re-rendering, are not part of this model.
 */
module App {
  import opened Text
  import opened Seqs
  import opened Groceries
  import opened Recipes

  class GroceryApp {
    var groceries: seq<Item>
    var customRecipes: seq<Recipe>

    /** Everything stored is something the two forms could have produced. */
    predicate WellFormed()
      reads this
    {
      && (forall k :: 0 <= k < |groceries| ==> ValidItem(groceries[k]))
      && (forall k :: 0 <= k < |customRecipes| ==> ValidRecipe(customRecipes[k]))
    }

    /** The lists as read from storage when the page loads. */
    constructor (groceries: seq<Item>, customRecipes: seq<Recipe>)
      ensures this.groceries == groceries && this.customRecipes == customRecipes
      ensures (forall k :: 0 <= k < |groceries| ==> ValidItem(groceries[k])) ==>
        (forall k :: 0 <= k < |customRecipes| ==> ValidRecipe(customRecipes[k])) ==>
        WellFormed()
    {
      this.groceries := groceries;
      this.customRecipes := customRecipes;
    }

    /**
     * The add-item form: the name is trimmed, the expiry is taken as it is, and the item
     * is appended only when neither is empty.
     */
    method AddItem(nameInput: string, expiryInput: string) returns (added: bool)
      modifies this
      ensures added <==> Trim(nameInput) != [] && expiryInput != []
      ensures groceries == if added then old(groceries) + [Item(Trim(nameInput), expiryInput)] else old(groceries)
      ensures customRecipes == old(customRecipes)
      ensures old(WellFormed()) ==> WellFormed()
    {
      var name := Trim(nameInput);
      if name == [] || expiryInput == [] {
        return false;
      }
      TrimStrips(nameInput);
      groceries := groceries + [Item(name, expiryInput)];
      added := true;
    }

    /** A row's delete button: `groceries.splice(idx, 1)` with the row's true index. */
    method DeleteItem(idx: int)
      modifies this
      ensures groceries == RemoveAt(old(groceries), idx)
      ensures customRecipes == old(customRecipes)
      ensures old(WellFormed()) ==> WellFormed()
    {
      var rest := RemoveAt(groceries, idx);
      forall k | 0 <= k < |rest|
        ensures rest[k] in groceries
      {
        assert rest[k] in multiset(rest);
      }
      groceries := rest;
    }

    /**
     * "Clear expired": keeps the items whose day count is a number and not negative, and
     * reports how many went.
     */
    method RemoveExpired(daysLeft: string -> DayCount) returns (removed: int)
      modifies this
      ensures groceries == Unexpired(old(groceries), daysLeft)
      ensures removed == |ExpiredItems(old(groceries), daysLeft)|
      ensures customRecipes == old(customRecipes)
      ensures old(WellFormed()) ==> WellFormed()
    {
      var before := |groceries|;
      RemovedCount(groceries, daysLeft);
      ghost var kept := Unexpired(groceries, daysLeft);
      forall k | 0 <= k < |kept|
        ensures kept[k] in groceries
      {
        UnexpiredMembers(groceries, daysLeft, kept[k]);
      }
      groceries := Unexpired(groceries, daysLeft);
      removed := before - |groceries|;
    }

    /**
     * The custom-recipe form: name and ingredient text are trimmed, the recipe is
     * appended only when neither is empty, and its ingredients are the parsed tokens.
     */
    method AddRecipe(nameInput: string, rawInput: string) returns (added: bool)
      modifies this
      ensures added <==> Trim(nameInput) != [] && Trim(rawInput) != []
      ensures customRecipes ==
        if added then old(customRecipes) + [Recipe(Trim(nameInput), ParseIngredients(Trim(rawInput)))]
        else old(customRecipes)
      ensures groceries == old(groceries)
      ensures old(WellFormed()) ==> WellFormed()
    {
      var name := Trim(nameInput);
      var raw := Trim(rawInput);
      if name == [] || raw == [] {
        return false;
      }
      TrimStrips(nameInput);
      var items := ParseIngredients(raw);
      customRecipes := customRecipes + [Recipe(name, items)];
      added := true;
    }

    /** A custom recipe's delete button: `customRecipes.splice(idx, 1)`. */
    method DeleteRecipe(idx: int)
      modifies this
      ensures customRecipes == RemoveAt(old(customRecipes), idx)
      ensures groceries == old(groceries)
      ensures old(WellFormed()) ==> WellFormed()
    {
      var rest := RemoveAt(customRecipes, idx);
      forall k | 0 <= k < |rest|
        ensures rest[k] in customRecipes
      {
        assert rest[k] in multiset(rest);
      }
      customRecipes := rest;
    }

    /** Searching for a stored item's own name always shows that item's row. */
    lemma StoredItemFound(k: int)
      requires WellFormed() && 0 <= k < |groceries|
      ensures Tagged(groceries[k], k) in Search(groceries, groceries[k].name)
    {
      var name := groceries[k].name;
      TrimPadded("", name, "");
      assert "" + name + "" == name;
      ContainsSelf(ToLower(name));
      SearchMembers(groceries, name, Tagged(groceries[k], k));
    }

    /** A stored custom recipe's ingredient line, as the list shows it, parses back to its ingredients. */
    lemma StoredRecipeReparses(k: int)
      requires WellFormed() && 0 <= k < |customRecipes|
      ensures ParseIngredients(CustomIngredientsAsWritten(customRecipes[k])) == customRecipes[k].items
    {
      ParseJoin(customRecipes[k].items);
    }

    /**
     * The suggestion box: built-in recipes first, then the custom ones, and the first
     * whose every ingredient some owned name contains; otherwise the fixed message.
     */
    method SuggestRecipe() returns (suggestion: string)
      ensures suggestion == Suggestion(AllRecipes(customRecipes), OwnedNames(groceries))
    {
      var items := OwnedNames(groceries);
      var all := AllRecipes(customRecipes);
      suggestion := NoMatchMessage;
      var i := 0;
      while i < |all|
        invariant 0 <= i <= |all|
        invariant forall j :: 0 <= j < i ==> !Matches(all[j], items)
        invariant suggestion == NoMatchMessage
      {
        if Matches(all[i], items) {
          SuggestionIsFirstMatch(all, items, i);
          suggestion := Render(all[i]);
          break;
        }
        i := i + 1;
      }
    }
  }
}
