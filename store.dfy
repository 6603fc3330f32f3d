/**
 * The script's global state as an object: the collection, the two fields
 * that say whether the form is adding or editing, and the storage slot the
 * collection is written to after each change.
 */
module Store {
  import opened Wrappers
  import opened Text
  import opened Recipes

  /** The three inputs of the recipe form, calories already parsed as an integer. */
  datatype FormFields = FormFields(name: string, ingredients: string, calories: int)

  class RecipeStore {
    var recipes: seq<Recipe>
    var isEditing: bool
    /** `currentRecipeId`, `null` being `None`. */
    var currentRecipeId: Option<string>
    /** The `'recipes'` slot of local storage, `None` when nothing was ever saved. */
    var storage: Option<seq<Recipe>>

    /** The form is in edit mode exactly when it has a record to edit. */
    predicate Valid()
      reads this
    {
      isEditing <==> currentRecipeId.Some?
    }

    /** `isEditing && currentRecipeId`: an empty id is falsy, so it does not count as one. */
    predicate SubmitUpdates()
      reads this
    {
      isEditing && currentRecipeId.Some? && currentRecipeId.value != ""
    }

    /**
     * Start-up: the saved collection, or, when there is none or it is empty,
     * the five samples, which are then saved.
     */
    constructor (stored: Option<seq<Recipe>>, seedIds: seq<string>)
      requires |seedIds| == 5
      ensures Valid() && !isEditing
      ensures stored.None? || stored.value == [] ==>
        recipes == SeedDefaults(seedIds) && storage == Some(recipes)
      ensures stored.Some? && stored.value != [] ==>
        recipes == stored.value && storage == stored
    {
      isEditing := false;
      currentRecipeId := None;
      var loaded := if stored.Some? then stored.value else [];
      if |loaded| == 0 {
        recipes := SeedDefaults(seedIds);
        storage := Some(SeedDefaults(seedIds));
      } else {
        recipes := loaded;
        storage := stored;
      }
    }

    /** `openAddRecipeForm`: the next submit adds. */
    method OpenAddRecipeForm()
      modifies this`isEditing, this`currentRecipeId
      ensures Valid() && !SubmitUpdates()
      ensures !isEditing && currentRecipeId == None
    {
      isEditing := false;
      currentRecipeId := None;
    }

    /** `closeRecipeForm`: leaves edit mode. */
    method CloseRecipeForm()
      modifies this`isEditing, this`currentRecipeId
      ensures Valid() && !SubmitUpdates()
      ensures !isEditing && currentRecipeId == None
    {
      isEditing := false;
      currentRecipeId := None;
    }

    /**
     * `editRecipe`: for a present id, enters edit mode for it and returns what
     * the form then shows; an absent id changes nothing.
     */
    method EditRecipe(id: string) returns (form: Option<FormFields>)
      requires Valid()
      modifies this`isEditing, this`currentRecipeId
      ensures Valid()
      ensures !HasId(recipes, id) ==>
        form == None && isEditing == old(isEditing) && currentRecipeId == old(currentRecipeId)
      ensures HasId(recipes, id) ==>
        var r := recipes[FindIndex(recipes, id).value];
        isEditing && currentRecipeId == Some(id) &&
        form == Some(FormFields(r.name, IngredientsText(r.ingredients), r.calories))
    {
      match FindIndex(recipes, id)
      case None =>
        form := None;
      case Some(i) =>
        var r := recipes[i];
        isEditing := true;
        currentRecipeId := Some(id);
        form := Some(FormFields(r.name, IngredientsText(r.ingredients), r.calories));
    }

    /**
     * `handleSubmit`: reads the form (name trimmed, ingredients parsed) and
     * commits it with `Submit`.
     */
    method HandleSubmit(form: FormFields, newId: string)
      modifies this
      ensures Valid() && !isEditing && currentRecipeId == None
      ensures var name, ingredients := Trim(form.name), ParseIngredients(form.ingredients);
        if old(SubmitUpdates()) then
          recipes == UpdateById(old(recipes), old(currentRecipeId).value, name, ingredients, form.calories)
        else
          recipes == [NewRecipe(newId, name, ingredients, form.calories)] + old(recipes)
      ensures storage == Some(recipes)
      ensures old(UniqueIds(recipes)) && (old(SubmitUpdates()) || !HasId(old(recipes), newId)) ==>
        UniqueIds(recipes)
    {
      Submit(Trim(form.name), ParseIngredients(form.ingredients), form.calories, newId);
    }

    /**
     * The branch of `handleSubmit`: in edit mode updates the record being
     * edited (a record deleted meanwhile is not re-created); otherwise
     * prepends a new record with `newId`.  Always saves and closes the form.
     */
    method Submit(name: string, ingredients: seq<string>, calories: int, newId: string)
      modifies this
      ensures Valid() && !isEditing && currentRecipeId == None
      ensures if old(SubmitUpdates()) then
          recipes == UpdateById(old(recipes), old(currentRecipeId).value, name, ingredients, calories)
        else
          recipes == [NewRecipe(newId, name, ingredients, calories)] + old(recipes)
      ensures storage == Some(recipes)
      ensures old(UniqueIds(recipes)) && (old(SubmitUpdates()) || !HasId(old(recipes), newId)) ==>
        UniqueIds(recipes)
    {
      if SubmitUpdates() {
        if UniqueIds(recipes) {
          UpdateKeepsUniqueIds(recipes, currentRecipeId.value, name, ingredients, calories);
        }
        recipes := UpdateById(recipes, currentRecipeId.value, name, ingredients, calories);
      } else {
        var added := NewRecipe(newId, name, ingredients, calories);
        if UniqueIds(recipes) && !HasId(recipes, newId) {
          AddKeepsUniqueIds(recipes, added);
        }
        recipes := [added] + recipes;
      }
      storage := Some(recipes);
      isEditing := false;
      currentRecipeId := None;
    }

    /** `toggleFavorite`: flips the flag of the record with `id` and saves; an absent id does nothing at all. */
    method ToggleFavorite(id: string)
      modifies this`recipes, this`storage
      ensures recipes == ToggleById(old(recipes), id)
      ensures storage == if HasId(old(recipes), id) then Some(recipes) else old(storage)
      ensures old(UniqueIds(recipes)) ==> UniqueIds(recipes)
    {
      if FindIndex(recipes, id).Some? {
        if UniqueIds(recipes) {
          ToggleKeepsUniqueIds(recipes, id);
        }
        recipes := ToggleById(recipes, id);
        storage := Some(recipes);
      }
    }

    /** `deleteRecipe`: once the user confirms, drops every record with `id` and saves. */
    method DeleteRecipe(id: string, confirmed: bool)
      modifies this`recipes, this`storage
      ensures recipes == if confirmed then Remove(old(recipes), id) else old(recipes)
      ensures storage == if confirmed then Some(recipes) else old(storage)
      ensures confirmed && old(UniqueIds(recipes)) ==>
        UniqueIds(recipes) && |recipes| == |old(recipes)| - (if HasId(old(recipes), id) then 1 else 0)
    {
      if confirmed {
        if UniqueIds(recipes) {
          RemoveLength(recipes, id);
          RemoveKeepsUniqueIds(recipes, id);
        }
        recipes := Remove(recipes, id);
        storage := Some(recipes);
      }
    }

    /** `filterRecipes`: the records the list shows for a search term; the collection is untouched. */
    method FilterRecipes(term: string) returns (shown: seq<Recipe>)
      ensures shown == Search(recipes, term)
      ensures AllSpace(term) ==> shown == recipes
    {
      if AllSpace(term) {
        SearchBlank(recipes, term);
      }
      shown := Search(recipes, term);
    }

    /** `updateTotalCalories`: the figure shown as the favourites' calorie total. */
    method UpdateTotalCalories() returns (total: int)
      ensures total == TotalFavoriteCalories(recipes)
      ensures total == FavoriteSum(recipes)
    {
      TotalIsFavoriteSum(recipes);
      total := TotalFavoriteCalories(recipes);
    }
  }

  /** Start-up on empty storage seeds the samples, whose favourites total 600 calories. */
  method StartOnEmptyStorage(seedIds: seq<string>) returns (count: nat, total: int)
    requires |seedIds| == 5
    ensures count == 5 && total == 600
  {
    var store := new RecipeStore(None, seedIds);
    SeededTotal(seedIds);
    count := |store.recipes|;
    total := store.UpdateTotalCalories();
  }
}
