/**
 * The recipe collection as a value: the record, the ingredient parser of the
 * submit handler, and the pure transformations behind every store operation
 * (update by id, toggle favourite, delete, search, favourite-calorie total,
 * sample seeding), each with the properties it promises.
 */
module Recipes {
  import opened Wrappers
  import opened Text
  import opened Seqs

  datatype Recipe = Recipe(id: string, name: string, ingredients: seq<string>, calories: int, isFavorite: bool)

  // ---------------------------------------------------------------- ingredients

  /** An entry the parser can produce: non-empty, trimmed, without a comma. */
  predicate IsIngredient(x: string) {
    x != [] && IsTrimmed(x) && ',' !in x
  }

  predicate AllIngredients(xs: seq<string>) {
    forall i :: 0 <= i < |xs| ==> IsIngredient(xs[i])
  }

  /** The `.map(ing => ing.trim()).filter(ing => ing !== '')` stage. */
  function TrimAndDropBlanks(parts: seq<string>): (r: seq<string>)
    requires forall i :: 0 <= i < |parts| ==> ',' !in parts[i]
    ensures AllIngredients(r)
  {
    if parts == [] then []
    else
      var t := Trim(parts[0]);
      TrimIntroducesNothing(parts[0], ',');
      (if t == [] then [] else [t]) + TrimAndDropBlanks(parts[1..])
  }

  /** `parts.map(ing => ing.trim())`. */
  function Trims(parts: seq<string>): (r: seq<string>)
    ensures |r| == |parts|
    ensures forall i :: 0 <= i < |parts| ==> r[i] == Trim(parts[i])
  {
    if parts == [] then [] else [Trim(parts[0])] + Trims(parts[1..])
  }

  /** The `ing !== ''` test of the ingredient filter. */
  predicate IsNonBlank(x: string) {
    x != []
  }

  /** The parser stage is `map(trim)` followed by `filter(ing !== '')`, so every non-blank piece is kept, in order. */
  lemma {:induction false} TrimAndDropBlanksIsFilter(parts: seq<string>)
    requires forall i :: 0 <= i < |parts| ==> ',' !in parts[i]
    ensures TrimAndDropBlanks(parts) == Filter(IsNonBlank, Trims(parts))
  {
    if parts != [] {
      TrimAndDropBlanksIsFilter(parts[1..]);
      assert Trims(parts)[1..] == Trims(parts[1..]);
    }
  }

  /** The comma-separated text of the ingredients field, as a list of entries. */
  function ParseIngredients(text: string): (r: seq<string>)
    ensures AllIngredients(r)
  {
    TrimAndDropBlanks(Split(text, ','))
  }

  /** Parsing keeps exactly the non-blank trimmed pieces between commas, in order and with repeats. */
  lemma ParseIngredientsExact(text: string)
    ensures ParseIngredients(text) == Filter(IsNonBlank, Trims(Split(text, ',')))
    ensures IsSubsequence(ParseIngredients(text), Trims(Split(text, ',')))
    ensures forall x :: multiset(ParseIngredients(text))[x] == if IsNonBlank(x) then multiset(Trims(Split(text, ',')))[x] else 0
  {
    var pieces := Trims(Split(text, ','));
    assert ParseIngredients(text) == Filter(IsNonBlank, pieces) by {
      TrimAndDropBlanksIsFilter(Split(text, ','));
    }
    FilterExact(IsNonBlank, pieces);
  }

  /** An empty piece between two commas is dropped and parsing carries on behind it. */
  lemma ParseSkipsEmptyPiece()
    ensures ParseIngredients("a,,b") == ["a", "b"]
  {
    SplitWithEmptyPiece();
    DropsEmptyPiece();
  }

  lemma SplitWithEmptyPiece()
    ensures Split("a,,b", ',') == ["a", "", "b"]
  {
    assert "a,,b" == "a" + [','] + ("" + [','] + "b");
    SplitAtFirst("a", ',', "" + [','] + "b");
    SplitAtFirst("", ',', "b");
    SplitNoSep("b", ',');
  }

  lemma DropsEmptyPiece()
    ensures TrimAndDropBlanks(["a", "", "b"]) == ["a", "b"]
  {
    assert IsTrimmed("a") && IsTrimmed("b");
    assert ["a", "", "b"][1..] == ["", "b"] && ["", "b"][1..] == ["b"];
  }

  /** What the edit form shows in the ingredients field. */
  function IngredientsText(xs: seq<string>): string {
    Join(xs, ", ")
  }

  /** The joined text of two or more entries is the first entry, a comma, and the rest behind a space. */
  lemma JoinedHead(xs: seq<string>, lead: string)
    requires |xs| >= 2
    ensures lead + IngredientsText(xs) == (lead + xs[0]) + [','] + (" " + IngredientsText(xs[1..]))
  {
    assert IngredientsText(xs) == xs[0] + ", " + IngredientsText(xs[1..]);
  }

  /** The parser keeps a first piece that trims to a non-empty entry. */
  lemma ParseHead(a: string, parts: seq<string>)
    requires ',' !in a && Trim(a) != []
    requires forall i :: 0 <= i < |parts| ==> ',' !in parts[i]
    ensures TrimAndDropBlanks([a] + parts) == [Trim(a)] + TrimAndDropBlanks(parts)
  {
    assert ([a] + parts)[1..] == parts;
  }

  /** A whitespace-only (or empty) text parses to no entries. */
  lemma ParseBlankLead(lead: string)
    requires AllSpace(lead)
    ensures TrimAndDropBlanks(Split(lead, ',')) == []
  {
    SplitNoSep(lead, ',');
  }

  /** A single entry, after an optional space, parses to itself. */
  lemma ParseSingle(lead: string, x: string)
    requires AllSpace(lead)
    requires IsIngredient(x)
    ensures TrimAndDropBlanks(Split(lead + x, ',')) == [x]
  {
    assert ',' !in lead + x;
    SplitNoSep(lead + x, ',');
    TrimAfterLead(lead, x);
    ParseHead(lead + x, []);
    assert [lead + x] + [] == [lead + x];
  }

  /** Splitting the text of two or more entries cuts at the comma after the first one. */
  lemma SplitJoinedHead(xs: seq<string>, lead: string)
    requires AllSpace(lead)
    requires |xs| >= 2 && IsIngredient(xs[0])
    ensures Split(lead + IngredientsText(xs), ',') == [lead + xs[0]] + Split(" " + IngredientsText(xs[1..]), ',')
  {
    JoinedHead(xs, lead);
    assert ',' !in lead + xs[0];
    SplitAtFirst(lead + xs[0], ',', " " + IngredientsText(xs[1..]));
  }

  /** A first piece holding one entry behind spaces parses to that entry, ahead of the rest. */
  lemma ParseLeadHead(lead: string, x: string, parts: seq<string>)
    requires AllSpace(lead) && IsIngredient(x)
    requires forall i :: 0 <= i < |parts| ==> ',' !in parts[i]
    ensures TrimAndDropBlanks([lead + x] + parts) == [x] + TrimAndDropBlanks(parts)
  {
    TrimAfterLead(lead, x);
    assert ',' !in lead + x;
    ParseHead(lead + x, parts);
  }

  /** Two or more entries: the first one parses off, and the rest parses as it did behind a space. */
  lemma ParseCons(xs: seq<string>, lead: string)
    requires AllSpace(lead)
    requires |xs| >= 2 && IsIngredient(xs[0])
    requires TrimAndDropBlanks(Split(" " + IngredientsText(xs[1..]), ',')) == xs[1..]
    ensures TrimAndDropBlanks(Split(lead + IngredientsText(xs), ',')) == xs
  {
    var restParts := Split(" " + IngredientsText(xs[1..]), ',');
    SplitJoinedHead(xs, lead);
    ParseLeadHead(lead, xs[0], restParts);
    assert [xs[0]] + xs[1..] == xs;
  }

  lemma {:induction false} ParseAfterLead(xs: seq<string>, lead: string)
    requires AllSpace(lead)
    requires AllIngredients(xs)
    ensures TrimAndDropBlanks(Split(lead + IngredientsText(xs), ',')) == xs
  {
    if |xs| == 0 {
      assert lead + IngredientsText(xs) == lead;
      ParseBlankLead(lead);
    } else if |xs| == 1 {
      assert lead + IngredientsText(xs) == lead + xs[0];
      assert IsIngredient(xs[0]);
      ParseSingle(lead, xs[0]);
    } else {
      assert IsIngredient(xs[0]);
      ParseAfterLead(xs[1..], " ");
      ParseCons(xs, lead);
    }
  }

  /** Parsing the text the edit form shows gives the entries back unchanged. */
  lemma ParseRoundTrip(xs: seq<string>)
    requires AllIngredients(xs)
    ensures ParseIngredients(IngredientsText(xs)) == xs
  {
    ParseAfterLead(xs, "");
    assert "" + IngredientsText(xs) == IngredientsText(xs);
  }

  /** Parsing is idempotent: re-submitting what the form shows changes nothing. */
  lemma ParseIdempotent(text: string)
    ensures ParseIngredients(IngredientsText(ParseIngredients(text))) == ParseIngredients(text)
  {
    ParseRoundTrip(ParseIngredients(text));
  }

  // ---------------------------------------------------------------- lookup by id

  predicate HasId(rs: seq<Recipe>, id: string) {
    exists i :: 0 <= i < |rs| && rs[i].id == id
  }

  /** No two records share an id. */
  predicate UniqueIds(rs: seq<Recipe>) {
    forall i, j :: 0 <= i < j < |rs| ==> rs[i].id != rs[j].id
  }

  /** `findIndex(recipe => recipe.id === id)`: the first record with that id, if any. */
  function FindIndex(rs: seq<Recipe>, id: string): (r: Option<nat>)
    ensures r.Some? ==> r.value < |rs| && rs[r.value].id == id
    ensures r.Some? ==> forall j :: 0 <= j < r.value ==> rs[j].id != id
    ensures r.None? <==> !HasId(rs, id)
  {
    if rs == [] then None
    else if rs[0].id == id then Some(0)
    else match FindIndex(rs[1..], id)
      case None => None
      case Some(k) => Some(k + 1)
  }

  /** Two collections with the same ids at the same places find an id at the same place. */
  lemma FindIndexSameIds(a: seq<Recipe>, b: seq<Recipe>, id: string)
    requires |a| == |b|
    requires forall j :: 0 <= j < |a| ==> a[j].id == b[j].id
    ensures FindIndex(a, id) == FindIndex(b, id)
  {
  }

  // ---------------------------------------------------------------- add, update, toggle, delete

  /** The record a submit in add mode creates: never a favourite. */
  function NewRecipe(id: string, name: string, ingredients: seq<string>, calories: int): (r: Recipe)
    ensures !r.isFavorite
  {
    Recipe(id, name, ingredients, calories, false)
  }

  /** Prepending a record with a fresh id keeps ids unique. */
  lemma AddKeepsUniqueIds(rs: seq<Recipe>, r: Recipe)
    requires UniqueIds(rs) && !HasId(rs, r.id)
    ensures UniqueIds([r] + rs)
  {
    forall i, j | 0 <= i < j < |[r] + rs|
      ensures ([r] + rs)[i].id != ([r] + rs)[j].id
    {
      if i == 0 {
        assert rs[j - 1].id != r.id;
      }
    }
  }

  /**
   * The update branch of a submit in edit mode: the first record with `id`
   * gets the new name, ingredients and calories and keeps its id and favourite
   * flag; nothing else changes, and a missing id changes nothing.
   */
  function UpdateById(rs: seq<Recipe>, id: string, name: string, ingredients: seq<string>, calories: int): (r: seq<Recipe>)
    ensures |r| == |rs|
    ensures !HasId(rs, id) ==> r == rs
    ensures HasId(rs, id) ==>
      var i := FindIndex(rs, id).value;
      r[i] == Recipe(id, name, ingredients, calories, rs[i].isFavorite) &&
      forall j :: 0 <= j < |rs| && j != i ==> r[j] == rs[j]
  {
    match FindIndex(rs, id)
    case None => rs
    case Some(i) => rs[i := rs[i].(name := name, ingredients := ingredients, calories := calories)]
  }

  /** An update keeps every id where it was, so ids stay unique. */
  lemma UpdateKeepsUniqueIds(rs: seq<Recipe>, id: string, name: string, ingredients: seq<string>, calories: int)
    requires UniqueIds(rs)
    ensures UniqueIds(UpdateById(rs, id, name, ingredients, calories))
  {
    var r := UpdateById(rs, id, name, ingredients, calories);
    assert forall j :: 0 <= j < |rs| ==> r[j].id == rs[j].id;
  }

  /** `toggleFavorite`: flips the favourite flag of the first record with `id`, and nothing else. */
  function ToggleById(rs: seq<Recipe>, id: string): (r: seq<Recipe>)
    ensures |r| == |rs|
    ensures !HasId(rs, id) ==> r == rs
    ensures HasId(rs, id) ==>
      var i := FindIndex(rs, id).value;
      r[i] == rs[i].(isFavorite := !rs[i].isFavorite) &&
      forall j :: 0 <= j < |rs| && j != i ==> r[j] == rs[j]
    ensures forall j :: 0 <= j < |rs| ==> r[j].id == rs[j].id
  {
    match FindIndex(rs, id)
    case None => rs
    case Some(i) => rs[i := rs[i].(isFavorite := !rs[i].isFavorite)]
  }

  /** Toggling the same id twice gives back the collection. */
  lemma ToggleTwice(rs: seq<Recipe>, id: string)
    ensures ToggleById(ToggleById(rs, id), id) == rs
  {
    FindIndexSameIds(rs, ToggleById(rs, id), id);
  }

  lemma ToggleKeepsUniqueIds(rs: seq<Recipe>, id: string)
    requires UniqueIds(rs)
    ensures UniqueIds(ToggleById(rs, id))
  {
  }

  /** `deleteRecipe` once confirmed: `recipes.filter(recipe => recipe.id !== id)`. */
  function Remove(rs: seq<Recipe>, id: string): (r: seq<Recipe>)
    ensures !HasId(r, id)
    ensures forall i :: 0 <= i < |rs| && rs[i].id != id ==> rs[i] in r
    ensures forall i :: 0 <= i < |r| ==> r[i] in rs
  {
    Filter((x: Recipe) => x.id != id, rs)
  }

  /** The result of a delete is the order-preserving subsequence of exactly the records with another id. */
  lemma RemoveExact(rs: seq<Recipe>, id: string)
    ensures IsSubsequence(Remove(rs, id), rs)
    ensures forall x :: multiset(Remove(rs, id))[x] == if x.id != id then multiset(rs)[x] else 0
  {
    FilterExact((x: Recipe) => x.id != id, rs);
  }

  /** `filter` on a non-empty collection: the head if kept, then the filtered tail. */
  lemma RemoveCons(rs: seq<Recipe>, id: string)
    requires rs != []
    ensures Remove(rs, id) == (if rs[0].id != id then [rs[0]] else []) + Remove(rs[1..], id)
  {
  }

  /** With unique ids, no record of the tail has the head's id. */
  lemma TailLacksHeadId(rs: seq<Recipe>)
    requires rs != [] && UniqueIds(rs)
    ensures UniqueIds(rs[1..]) && !HasId(rs[1..], rs[0].id)
  {
    forall k | 0 <= k < |rs[1..]|
      ensures rs[1..][k].id != rs[0].id
    {
      assert rs[1..][k] == rs[k + 1];
    }
  }

  /** A collection has an id exactly when its head or its tail has it. */
  lemma HasIdCons(rs: seq<Recipe>, id: string)
    requires rs != []
    ensures HasId(rs, id) <==> rs[0].id == id || HasId(rs[1..], id)
  {
    if HasId(rs, id) && rs[0].id != id {
      var k :| 0 <= k < |rs| && rs[k].id == id;
      assert rs[1..][k - 1].id == id;
    }
    if HasId(rs[1..], id) {
      var k :| 0 <= k < |rs[1..]| && rs[1..][k].id == id;
      assert rs[k + 1].id == id;
    }
  }

  /** With unique ids a delete removes one record when the id is present and none otherwise. */
  lemma {:induction false} RemoveLength(rs: seq<Recipe>, id: string)
    requires UniqueIds(rs)
    ensures |Remove(rs, id)| == if HasId(rs, id) then |rs| - 1 else |rs|
  {
    if rs != [] {
      var tail := rs[1..];
      RemoveCons(rs, id);
      TailLacksHeadId(rs);
      HasIdCons(rs, id);
      if rs[0].id == id {
        FilterAll((x: Recipe) => x.id != id, tail);
      } else {
        RemoveLength(tail, id);
      }
    }
  }

  /** A delete keeps ids unique. */
  lemma {:induction false} RemoveKeepsUniqueIds(rs: seq<Recipe>, id: string)
    requires UniqueIds(rs)
    ensures UniqueIds(Remove(rs, id))
  {
    if rs != [] {
      var tail := rs[1..];
      TailLacksHeadId(rs);
      RemoveKeepsUniqueIds(tail, id);
      var rest := Remove(tail, id);
      RemoveCons(rs, id);
      if rs[0].id != id {
        forall k | 0 <= k < |rest|
          ensures rest[k].id != rs[0].id
        {
          assert rest[k] in tail;
        }
        AddKeepsUniqueIds(rest, rs[0]);
      }
    }
  }

  // ---------------------------------------------------------------- search

  /** The `filterRecipes` predicate for an already lower-cased, trimmed term. */
  predicate Matches(r: Recipe, term: string) {
    Contains(ToLower(r.name), term) ||
    exists k :: 0 <= k < |r.ingredients| && Contains(ToLower(r.ingredients[k]), term)
  }

  /** The search term as `filterRecipes` uses it. */
  function SearchKey(term: string): (key: string)
    ensures IsTrimmed(key)
    ensures key == [] <==> AllSpace(term)
  {
    Trim(ToLower(term))
  }

  /**
   * `filterRecipes`: the whole collection for a blank term, otherwise the
   * records whose name or some ingredient contains the term, ignoring case.
   */
  function Search(rs: seq<Recipe>, term: string): (r: seq<Recipe>)
    ensures SearchKey(term) == [] ==> r == rs
    ensures SearchKey(term) != [] ==>
      (forall i :: 0 <= i < |r| ==> r[i] in rs && Matches(r[i], SearchKey(term))) &&
      (forall i :: 0 <= i < |rs| && Matches(rs[i], SearchKey(term)) ==> rs[i] in r)
  {
    var key := SearchKey(term);
    if key == [] then rs else Filter((x: Recipe) => Matches(x, key), rs)
  }

  /** A whitespace-only term shows every record. */
  lemma SearchBlank(rs: seq<Recipe>, term: string)
    requires AllSpace(term)
    ensures Search(rs, term) == rs
  {
    ToLowerKeepsSpace(term);
  }

  /** For a non-blank term the result is the order-preserving subsequence of exactly the matching records. */
  lemma SearchExact(rs: seq<Recipe>, term: string)
    requires SearchKey(term) != []
    ensures IsSubsequence(Search(rs, term), rs)
    ensures forall x :: multiset(Search(rs, term))[x] == if Matches(x, SearchKey(term)) then multiset(rs)[x] else 0
  {
    var key := SearchKey(term);
    FilterExact((x: Recipe) => Matches(x, key), rs);
  }

  /** Upper-case letters in the term make no difference. */
  lemma SearchIgnoresCase(rs: seq<Recipe>, term: string)
    ensures Search(rs, ToLower(term)) == Search(rs, term)
  {
    ToLowerIdempotent(term);
  }

  // ---------------------------------------------------------------- favourite calories

  /** `reduce((sum, recipe) => sum + recipe.calories, 0)`. */
  function SumCalories(rs: seq<Recipe>): (sum: int)
    ensures (forall i :: 0 <= i < |rs| ==> rs[i].calories >= 0) ==> sum >= 0
  {
    if rs == [] then 0
    else
      assert forall i :: 1 <= i < |rs| ==> rs[1..][i - 1] == rs[i];
      rs[0].calories + SumCalories(rs[1..])
  }

  /** What one record adds to the favourite total. */
  function FavoriteShare(r: Recipe): int {
    if r.isFavorite then r.calories else 0
  }

  predicate IsFavorite(r: Recipe) {
    r.isFavorite
  }

  /** The favourite total written record by record, independently of the filter. */
  function FavoriteSum(rs: seq<Recipe>): int {
    if rs == [] then 0 else FavoriteShare(rs[0]) + FavoriteSum(rs[1..])
  }

  /** `updateTotalCalories`: the calories of the favourites, 0 when there is none. */
  function TotalFavoriteCalories(rs: seq<Recipe>): (total: int)
    ensures (forall i :: 0 <= i < |rs| ==> !rs[i].isFavorite) ==> total == 0
  {
    var favorites := Filter(IsFavorite, rs);
    assert favorites != [] ==> favorites[0] in rs;
    SumCalories(favorites)
  }

  /** The filter-then-reduce total is the per-record sum of favourite calories. */
  lemma {:induction false} TotalIsFavoriteSum(rs: seq<Recipe>)
    ensures TotalFavoriteCalories(rs) == FavoriteSum(rs)
  {
    if rs != [] {
      TotalIsFavoriteSum(rs[1..]);
      var rest := Filter(IsFavorite, rs[1..]);
      assert TotalFavoriteCalories(rs[1..]) == SumCalories(rest);
      assert TotalFavoriteCalories(rs) == SumCalories(Filter(IsFavorite, rs));
      if rs[0].isFavorite {
        assert Filter(IsFavorite, rs) == [rs[0]] + rest;
        assert ([rs[0]] + rest)[1..] == rest;
        assert SumCalories([rs[0]] + rest) == rs[0].calories + SumCalories(rest);
      } else {
        assert Filter(IsFavorite, rs) == rest;
      }
    }
  }

  /** Replacing one record changes the per-record sum by the difference of their shares. */
  lemma {:induction false} FavoriteSumReplace(rs: seq<Recipe>, i: nat, x: Recipe)
    requires i < |rs|
    ensures FavoriteSum(rs[i := x]) == FavoriteSum(rs) - FavoriteShare(rs[i]) + FavoriteShare(x)
  {
    if i == 0 {
      assert rs[i := x][1..] == rs[1..];
    } else {
      FavoriteSumReplace(rs[1..], i - 1, x);
      assert rs[i := x][1..] == rs[1..][i - 1 := x];
    }
  }

  /** Toggling a present record moves the total by its calories, up or down; a missing id leaves it. */
  lemma ToggleMovesTotal(rs: seq<Recipe>, id: string)
    ensures !HasId(rs, id) ==> TotalFavoriteCalories(ToggleById(rs, id)) == TotalFavoriteCalories(rs)
    ensures HasId(rs, id) ==>
      var r := rs[FindIndex(rs, id).value];
      TotalFavoriteCalories(ToggleById(rs, id)) ==
        TotalFavoriteCalories(rs) + (if r.isFavorite then -r.calories else r.calories)
  {
    TotalIsFavoriteSum(rs);
    TotalIsFavoriteSum(ToggleById(rs, id));
    if HasId(rs, id) {
      var i := FindIndex(rs, id).value;
      assert ToggleById(rs, id) == rs[i := rs[i].(isFavorite := !rs[i].isFavorite)];
      FavoriteSumReplace(rs, i, rs[i].(isFavorite := !rs[i].isFavorite));
    }
  }

  /** A newly added record is not a favourite, so adding leaves the total. */
  lemma AddKeepsTotal(rs: seq<Recipe>, id: string, name: string, ingredients: seq<string>, calories: int)
    ensures TotalFavoriteCalories([NewRecipe(id, name, ingredients, calories)] + rs) == TotalFavoriteCalories(rs)
  {
    var added := [NewRecipe(id, name, ingredients, calories)] + rs;
    TotalIsFavoriteSum(added);
    TotalIsFavoriteSum(rs);
    assert added[1..] == rs;
  }

  // ---------------------------------------------------------------- sample data

  const CarbonaraIngredients: seq<string> := ["spaghetti", "eggs", "pancetta", "parmesan", "black pepper"]
  const SaladIngredients: seq<string> := ["cucumber", "tomato", "red onion", "feta cheese", "olives", "olive oil"]
  const CurryIngredients: seq<string> := ["chicken breast", "coconut milk", "curry paste", "onion", "garlic", "ginger"]
  const ToastIngredients: seq<string> := ["sourdough bread", "avocado", "cherry tomatoes", "red pepper flakes", "lemon juice"]
  const CookieIngredients: seq<string> := ["flour", "butter", "sugar", "chocolate chips", "eggs", "vanilla extract"]

  /** `addSampleRecipes`: the five fixed records, with the ids the generator gave them. */
  function SeedDefaults(ids: seq<string>): (rs: seq<Recipe>)
    requires |ids| == 5
    ensures |rs| == 5
    ensures forall i :: 0 <= i < 5 ==> rs[i].id == ids[i] && rs[i].calories > 0
    ensures (forall i, j :: 0 <= i < j < 5 ==> ids[i] != ids[j]) ==> UniqueIds(rs)
    ensures forall i :: 0 <= i < 5 ==> (rs[i].isFavorite <==> i == 1 || i == 3)
  {
    [ Recipe(ids[0], "Pasta Carbonara", CarbonaraIngredients, 650, false),
      Recipe(ids[1], "Greek Salad", SaladIngredients, 320, true),
      Recipe(ids[2], "Chicken Curry", CurryIngredients, 480, false),
      Recipe(ids[3], "Avocado Toast", ToastIngredients, 280, true),
      Recipe(ids[4], "Chocolate Chip Cookies", CookieIngredients, 150, false) ]
  }

  lemma CarbonaraWellFormed()
    ensures AllIngredients(CarbonaraIngredients) && IsTrimmed("Pasta Carbonara")
  {
    assert IsIngredient("spaghetti") && IsIngredient("eggs") && IsIngredient("pancetta");
    assert IsIngredient("parmesan") && IsIngredient("black pepper");
  }

  lemma SaladWellFormed()
    ensures AllIngredients(SaladIngredients) && IsTrimmed("Greek Salad")
  {
    assert IsIngredient("cucumber") && IsIngredient("tomato") && IsIngredient("red onion");
    assert IsIngredient("feta cheese") && IsIngredient("olives") && IsIngredient("olive oil");
  }

  lemma CurryWellFormed()
    ensures AllIngredients(CurryIngredients) && IsTrimmed("Chicken Curry")
  {
    assert IsIngredient("chicken breast") && IsIngredient("coconut milk") && IsIngredient("curry paste");
    assert IsIngredient("onion") && IsIngredient("garlic") && IsIngredient("ginger");
  }

  lemma ToastWellFormed()
    ensures AllIngredients(ToastIngredients) && IsTrimmed("Avocado Toast")
  {
    assert IsIngredient("sourdough bread") && IsIngredient("avocado") && IsIngredient("cherry tomatoes");
    assert IsIngredient("red pepper flakes") && IsIngredient("lemon juice");
  }

  lemma CookieWellFormed()
    ensures AllIngredients(CookieIngredients) && IsTrimmed("Chocolate Chip Cookies")
  {
    assert IsIngredient("flour") && IsIngredient("butter") && IsIngredient("sugar");
    assert IsIngredient("chocolate chips") && IsIngredient("eggs") && IsIngredient("vanilla extract");
  }

  /** Every sample has a trimmed non-empty name and well-formed ingredients, so it survives an edit round trip. */
  lemma SeedWellFormed(ids: seq<string>)
    requires |ids| == 5
    ensures forall i :: 0 <= i < 5 ==> WellFormed(SeedDefaults(ids)[i])
  {
    CarbonaraWellFormed();
    SaladWellFormed();
    CurryWellFormed();
    ToastWellFormed();
    CookieWellFormed();
  }

  /** The seeded favourites are Greek Salad (320) and Avocado Toast (280), for a total of 600. */
  lemma SeededTotal(ids: seq<string>)
    requires |ids| == 5
    ensures TotalFavoriteCalories(SeedDefaults(ids)) == 600
  {
    var rs := SeedDefaults(ids);
    TotalIsFavoriteSum(rs);
    assert FavoriteSum(rs[4..]) == 0 by { assert rs[4..][1..] == []; }
    assert FavoriteSum(rs[3..]) == 280 by { assert rs[3..][1..] == rs[4..]; }
    assert FavoriteSum(rs[2..]) == 280 by { assert rs[2..][1..] == rs[3..]; }
    assert FavoriteSum(rs[1..]) == 600 by { assert rs[1..][1..] == rs[2..]; }
  }

  // ---------------------------------------------------------------- scenarios

  /** A record the submit handler could have produced: trimmed non-empty name, parsed ingredients. */
  predicate WellFormed(r: Recipe) {
    r.name != [] && IsTrimmed(r.name) && AllIngredients(r.ingredients)
  }

  /** Updating a record with its own name, ingredients and calories changes nothing. */
  lemma UpdateWithSameFields(rs: seq<Recipe>, id: string)
    requires HasId(rs, id)
    ensures var r := rs[FindIndex(rs, id).value];
      UpdateById(rs, id, r.name, r.ingredients, r.calories) == rs
  {
    var i := FindIndex(rs, id).value;
    var r := rs[i];
    var u := UpdateById(rs, id, r.name, r.ingredients, r.calories);
    assert u[i] == rs[i];
    assert forall j :: 0 <= j < |rs| ==> u[j] == rs[j];
  }

  /** Opening a well-formed record for editing and submitting the form untouched changes nothing. */
  lemma ResubmitUnchanged(rs: seq<Recipe>, id: string)
    requires HasId(rs, id)
    requires WellFormed(rs[FindIndex(rs, id).value])
    ensures var r := rs[FindIndex(rs, id).value];
      UpdateById(rs, id, Trim(r.name), ParseIngredients(IngredientsText(r.ingredients)), r.calories) == rs
  {
    var r := rs[FindIndex(rs, id).value];
    assert ParseIngredients(IngredientsText(r.ingredients)) == r.ingredients by {
      ParseRoundTrip(r.ingredients);
    }
    assert Trim(r.name) == r.name;
    UpdateWithSameFields(rs, id);
  }

  /** Adding "Tea" and searching for "tea" finds the new record first, by its name. */
  lemma AddedTeaIsFound(rs: seq<Recipe>, id: string)
    ensures var tea := NewRecipe(id, "Tea", ["water", "tea leaves"], 5);
      var found := Search([tea] + rs, "tea");
      found != [] && found[0] == tea
  {
    var tea := NewRecipe(id, "Tea", ["water", "tea leaves"], 5);
    var hit := (x: Recipe) => Matches(x, "tea");
    assert Search([tea] + rs, "tea") == Filter(hit, [tea] + rs) by {
      TeaKey();
    }
    assert hit(tea) by {
      TeaName();
      assert OccursAt("tea", "tea", 0);
    }
    assert ([tea] + rs)[1..] == rs;
  }

  lemma TeaKey()
    ensures SearchKey("tea") == "tea"
  {
    TeaName();
    assert !IsSpace('t') && !IsSpace('a');
    assert IsTrimmed("tea");
  }

  lemma TeaName()
    ensures ToLower("Tea") == "tea" && ToLower("tea") == "tea"
  {
    assert "Tea"[1..] == "ea" && "ea"[1..] == "a" && "a"[1..] == [];
    assert "tea"[1..] == "ea";
  }
}
