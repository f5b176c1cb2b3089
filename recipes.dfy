/**
 * Recipe suggestion and custom-recipe ingredients.
 *
 * A recipe is suggested when every one of its ingredient tokens occurs inside some
 * owned item's lower-cased name; the built-in recipes are tried first, in their fixed
 * order, then the custom ones, and the first full match wins.
 */
module Recipes {
  import opened Text
  import opened Seqs
  import opened Html
  import opened Groceries

  /** A recipe, built in or custom: `{ name, items }`. */
  datatype Recipe = Recipe(name: string, items: seq<string>)

  datatype Option<T> = None | Some(value: T)

  /** The six recipes that ship with the page, in priority order. */
  function BuiltIns(): seq<Recipe> {
    [ Recipe("French Toast", ["egg", "bread"]),
      Recipe("Veg Fried Rice", ["rice", "vegetable", "vegetables"]),
      Recipe("Tomato Pasta", ["pasta", "tomato"]),
      Recipe("Banana Smoothie", ["milk", "banana"]),
      Recipe("Grilled Chicken", ["chicken", "spice", "spices"]),
      Recipe("Avocado Toast", ["avocado", "bread"]) ]
  }

  /** `[...predefined, ...customRecipes]`. */
  function AllRecipes(custom: seq<Recipe>): seq<Recipe> {
    BuiltIns() + custom
  }

  /** `groceries.map(i => i.name.toLowerCase())`. */
  function OwnedNames(gs: seq<Item>): seq<string> {
    seq(|gs|, k requires 0 <= k < |gs| => ToLower(gs[k].name))
  }

  /** `items.some(it => it.includes(ing))`: the owned name contains the token, not the reverse. */
  predicate Satisfied(ing: string, owned: seq<string>) {
    exists j | 0 <= j < |owned| :: Contains(owned[j], ing)
  }

  /** `r.items.every(ing => ...)`. */
  predicate Matches(r: Recipe, owned: seq<string>) {
    forall i | 0 <= i < |r.items| :: Satisfied(r.items[i], owned)
  }

  /** The position of the first recipe that matches, if any. */
  function FirstMatch(rs: seq<Recipe>, owned: seq<string>): (m: Option<nat>)
    ensures m.Some? ==> m.value < |rs| && Matches(rs[m.value], owned)
    ensures m.Some? ==> forall j :: 0 <= j < m.value ==> !Matches(rs[j], owned)
    ensures m.None? <==> forall j :: 0 <= j < |rs| ==> !Matches(rs[j], owned)
  {
    if rs == [] then None
    else if Matches(rs[0], owned) then Some(0)
    else
      match FirstMatch(rs[1..], owned)
      case None => None
      case Some(k) => Some(k + 1)
  }

  const NoMatchMessage: string := "No matching recipe found. Add more items."

  /** `items.map(i => escapeHtml(i))`. */
  function EscapeAll(items: seq<string>): seq<string> {
    seq(|items|, k requires 0 <= k < |items| => Escape(items[k]))
  }

  /** The ingredient tokens as markup: each escaped, joined by `", "`. */
  function IngredientsMarkup(items: seq<string>): string {
    Join(EscapeAll(items), ", ")
  }

  /** The markup the suggestion box shows for a recipe. */
  function Render(r: Recipe): string {
    "<strong>" + Escape(r.name) + "</strong><br/>Ingredients: " + IngredientsMarkup(r.items)
  }

  /** What the suggestion box shows for these recipes and owned names. */
  function Suggestion(rs: seq<Recipe>, owned: seq<string>): string {
    match FirstMatch(rs, owned)
    case Some(k) => Render(rs[k])
    case None => NoMatchMessage
  }

  /** The first recipe that matches is the one shown. */
  lemma SuggestionIsFirstMatch(rs: seq<Recipe>, owned: seq<string>, k: nat)
    requires k < |rs| && Matches(rs[k], owned)
    requires forall j :: 0 <= j < k ==> !Matches(rs[j], owned)
    ensures FirstMatch(rs, owned) == Some(k)
    ensures Suggestion(rs, owned) == Render(rs[k])
  {
  }

  /** The fixed message is shown exactly when no recipe matches. */
  lemma NoMatchIff(rs: seq<Recipe>, owned: seq<string>)
    ensures Suggestion(rs, owned) == NoMatchMessage <==> forall j :: 0 <= j < |rs| ==> !Matches(rs[j], owned)
  {
    match FirstMatch(rs, owned)
    case Some(k) =>
      assert Render(rs[k])[0] == '<' != NoMatchMessage[0];
    case None =>
  }

  /** Owning more never makes a matching recipe stop matching. */
  lemma MatchesMonotone(r: Recipe, owned: seq<string>, more: seq<string>)
    requires Matches(r, owned)
    ensures Matches(r, owned + more)
  {
    forall i | 0 <= i < |r.items|
      ensures Satisfied(r.items[i], owned + more)
    {
      assert Satisfied(r.items[i], owned);
      var j :| 0 <= j < |owned| && Contains(owned[j], r.items[i]);
      assert (owned + more)[j] == owned[j];
    }
  }

  /** Adding recipes at the end never changes a suggestion already found. */
  lemma AppendKeepsSuggestion(rs: seq<Recipe>, more: seq<Recipe>, owned: seq<string>)
    requires FirstMatch(rs, owned).Some?
    ensures Suggestion(rs + more, owned) == Suggestion(rs, owned)
  {
    var k := FirstMatch(rs, owned).value;
    SuggestionIsFirstMatch(rs + more, owned, k);
  }

  /** A recipe without ingredients matches anything, so it is shown unless an earlier one matches. */
  lemma EmptyRecipeSuggested(rs: seq<Recipe>, name: string, owned: seq<string>)
    requires forall j :: 0 <= j < |rs| ==> !Matches(rs[j], owned)
    ensures Suggestion(rs + [Recipe(name, [])], owned) == Render(Recipe(name, []))
  {
    SuggestionIsFirstMatch(rs + [Recipe(name, [])], owned, |rs|);
  }

  /** Owning egg and bread gives French Toast, whatever the custom recipes are. */
  lemma FrenchToastScenario(custom: seq<Recipe>)
    ensures Suggestion(AllRecipes(custom), ["egg", "bread"]) == Render(Recipe("French Toast", ["egg", "bread"]))
  {
    var owned: seq<string> := ["egg", "bread"];
    var toast := Recipe("French Toast", ["egg", "bread"]);
    ContainsSelf("egg");
    ContainsSelf("bread");
    assert Satisfied(toast.items[0], owned);
    assert Satisfied(toast.items[1], owned);
    assert AllRecipes(custom)[0] == toast;
    SuggestionIsFirstMatch(AllRecipes(custom), owned, 0);
  }

  // Custom recipe ingredients

  function TrimAll(pieces: seq<string>): seq<string> {
    seq(|pieces|, k requires 0 <= k < |pieces| => Trim(pieces[k]))
  }

  function NonEmpty(): string -> bool {
    (t: string) => t != []
  }

  /**
   * `raw.toLowerCase().split(',').map(s => s.trim()).filter(Boolean)`: every ingredient it
   * yields is non-empty, trimmed, lower-case and free of commas.
   */
  function ParseIngredients(raw: string): (r: seq<string>)
    ensures forall k :: 0 <= k < |r| ==> IsToken(r[k])
  {
    var r := Filter(NonEmpty(), TrimAll(Split(ToLower(raw), ',')));
    PieceTokens(raw);
    r
  }

  /** What a stored ingredient token looks like. */
  predicate IsToken(t: string) {
    t != [] && NoEdgeSpace(t) && IsLower(t) && ',' !in t
  }

  /** A trimmed piece of lower-case, comma-free text is a token unless it is empty. */
  lemma TrimmedPiece(p: string)
    requires IsLower(p) && ',' !in p && Trim(p) != []
    ensures IsToken(Trim(p))
  {
    var t := Trim(p);
    var i := |p| - |TrimStart(p)|;
    TrimStrips(p);
    assert t == p[i..i + |t|];
    forall c | 0 <= c < |t|
      ensures !('A' <= t[c] <= 'Z') && t[c] != ','
    {
      assert t[c] == p[i + c];
    }
    assert IsLower(t) && ',' !in t;
  }

  /** A recipe the custom-recipe form could have stored. */
  predicate ValidRecipe(r: Recipe) {
    r.name != [] && NoEdgeSpace(r.name) && forall k :: 0 <= k < |r.items| ==> IsToken(r.items[k])
  }

  /** The non-empty trimmed pieces of lower-cased text are tokens. */
  lemma PieceTokens(raw: string)
    ensures forall k :: 0 <= k < |Filter(NonEmpty(), TrimAll(Split(ToLower(raw), ',')))| ==>
      IsToken(Filter(NonEmpty(), TrimAll(Split(ToLower(raw), ',')))[k])
  {
    var lowered := ToLower(raw);
    var pieces := Split(lowered, ',');
    var trimmed := TrimAll(pieces);
    forall t | t in Filter(NonEmpty(), trimmed)
      ensures IsToken(t)
    {
      FilterMember(NonEmpty(), trimmed, t);
      var k :| 0 <= k < |trimmed| && trimmed[k] == t;
      LowerPieces(lowered, k);
      TrimmedPiece(pieces[k]);
    }
  }

  /** The pieces of a split lower-case string are lower-case. */
  lemma LowerPieces(s: string, k: nat)
    requires IsLower(s) && k < |Split(s, ',')|
    ensures IsLower(Split(s, ',')[k])
  {
    var notUpper := (c: char) => !('A' <= c <= 'Z');
    PiecesKeepChars(s, ',', notUpper);
  }

  /** Every character of a piece of `split` is a character of the string. */
  lemma {:induction false} PiecesKeepChars(s: string, sep: char, p: char -> bool)
    requires AllChars(s, p)
    ensures forall k :: 0 <= k < |Split(s, sep)| ==> AllChars(Split(s, sep)[k], p)
  {
    if s != [] {
      PiecesKeepChars(s[1..], sep, p);
    }
  }

  /** `[t0, " " + t1, " " + t2, ...]`: the comma-separated pieces of `ts` joined by `", "`. */
  function Padded(ts: seq<string>): (r: seq<string>)
    requires |ts| >= 1
  {
    [ts[0]] + seq(|ts| - 1, k requires 0 <= k < |ts| - 1 => " " + ts[k + 1])
  }

  lemma {:induction false} JoinCommaSpace(ts: seq<string>)
    requires |ts| >= 1
    ensures Join(ts, ", ") == Join(Padded(ts), ",")
  {
    if |ts| > 1 {
      JoinCommaSpace(ts[1..]);
      var tail := seq(|ts| - 2, k requires 0 <= k < |ts| - 2 => " " + ts[k + 2]);
      assert Padded(ts[1..]) == [ts[1]] + tail;
      assert Padded(ts) == [ts[0]] + ([" " + ts[1]] + tail);
      JoinHeadPrefix(" ", ts[1], tail, ",");
    }
  }

  /** Trimming each padded piece gives the tokens back. */
  lemma TrimAllPadded(ts: seq<string>)
    requires |ts| >= 1
    requires forall k :: 0 <= k < |ts| ==> IsToken(ts[k])
    ensures TrimAll(Padded(ts)) == ts
  {
    var pad := Padded(ts);
    forall k | 0 <= k < |pad|
      ensures Trim(pad[k]) == ts[k]
    {
      if k == 0 {
        TrimPadded("", ts[0], "");
        assert "" + ts[0] + "" == ts[0];
      } else {
        assert pad[k] == " " + ts[k];
        TrimPadded(" ", ts[k], "");
        assert " " + ts[k] + "" == pad[k];
      }
    }
  }

  /** Empty text has no ingredients. */
  lemma ParseEmpty()
    ensures ParseIngredients([]) == []
  {
    assert ToLower([]) == [];
    SplitNoSep([], ',');
    TrimCharacterized([], [], 0);
    assert TrimAll([[]]) == [[]];
    assert Filter(NonEmpty(), [[]]) == [];
  }

  /**
   * Parsing reads back the list a custom recipe displays: tokens joined by `", "`
   * parse to the same tokens, in the same order.
   */
  lemma ParseJoin(ts: seq<string>)
    requires forall k :: 0 <= k < |ts| ==> IsToken(ts[k])
    ensures ParseIngredients(Join(ts, ", ")) == ts
  {
    if ts == [] {
      ParseEmpty();
    } else {
      var joined := Join(ts, ", ");
      var pad := Padded(ts);
      JoinedTokensLower(ts);
      ToLowerOfLower(joined);
      JoinCommaSpace(ts);
      PaddedCommaFree(ts);
      ParseVia(joined, pad);
      assert ParseIngredients(joined) == Filter(NonEmpty(), TrimAll(pad));
      TrimAllPadded(ts);
      FilterAll(NonEmpty(), ts);
    }
  }

  lemma PaddedCommaFree(ts: seq<string>)
    requires |ts| >= 1 && forall k :: 0 <= k < |ts| ==> IsToken(ts[k])
    ensures forall k :: 0 <= k < |Padded(ts)| ==> ',' !in Padded(ts)[k]
  {
    var pad := Padded(ts);
    forall k | 0 <= k < |pad|
      ensures ',' !in pad[k]
    {
      if k > 0 {
        assert pad[k] == " " + ts[k];
      }
    }
  }

  lemma JoinedTokensLower(ts: seq<string>)
    requires forall k :: 0 <= k < |ts| ==> IsToken(ts[k])
    ensures IsLower(Join(ts, ", "))
  {
    var notUpper := (c: char) => !('A' <= c <= 'Z');
    assert forall k :: 0 <= k < |ts| ==> AllChars(ts[k], notUpper);
    JoinAllChars(ts, ", ", notUpper);
  }

  /** Parsing text whose lower-cased form is known piece by piece. */
  lemma ParseVia(raw: string, pieces: seq<string>)
    requires |pieces| >= 1 && forall k :: 0 <= k < |pieces| ==> ',' !in pieces[k]
    requires ToLower(raw) == Join(pieces, ",")
    ensures ParseIngredients(raw) == Filter(NonEmpty(), TrimAll(pieces))
  {
    SplitJoin(pieces, ',');
  }

  /** Two empty pieces stay empty when trimmed. */
  lemma TrimAllTwo()
    ensures TrimAll(["", ""]) == ["", ""]
  {
    TrimPadded("", "", "");
    var t := TrimAll(["", ""]);
    assert t[0] == Trim("") && t[1] == Trim("");
  }

  /** Trimming each piece of a three-piece split, one piece at a time. */
  lemma TrimAllThree(ps: seq<string>, a: string, b: string, c: string)
    requires |ps| == 3 && Trim(ps[0]) == a && Trim(ps[1]) == b && Trim(ps[2]) == c
    ensures TrimAll(ps) == [a, b, c]
  {
    var t := TrimAll(ps);
    assert t[0] == Trim(ps[0]) && t[1] == Trim(ps[1]) && t[2] == Trim(ps[2]);
  }

  lemma RicePeasPieces()
    ensures TrimAll(["rice ", " peas ", ""]) == ["rice", "peas", ""]
  {
    TrimPadded("", "rice", " ");
    TrimPadded(" ", "peas", " ");
    TrimPadded("", "", "");
    TrimAllThree(["rice ", " peas ", ""], "rice", "peas", "");
  }

  lemma RicePeasLower()
    ensures ToLower("Rice , Peas ,") == Join(["rice ", " peas ", ""], ",")
  {
  }

  lemma RicePeasFilter()
    ensures Filter(NonEmpty(), ["rice", "peas", ""]) == ["rice", "peas"]
  {
    var keep := NonEmpty();
    assert Filter(keep, [""]) == [];
    assert Filter(keep, ["peas", ""]) == ["peas"] + Filter(keep, [""]);
    assert Filter(keep, ["rice", "peas", ""]) == ["rice"] + Filter(keep, ["peas", ""]);
  }

  /** `" Rice , Peas ,"`, trimmed as the form does, gives `["rice", "peas"]`. */
  lemma ParseRicePeas()
    ensures ParseIngredients(Trim(" Rice , Peas ,")) == ["rice", "peas"]
  {
    var raw := "Rice , Peas ,";
    var pieces: seq<string> := ["rice ", " peas ", ""];
    TrimPadded(" ", raw, "");
    assert " " + raw + "" == " Rice , Peas ,";
    RicePeasLower();
    ParseVia(raw, pieces);
    RicePeasPieces();
    RicePeasFilter();
    assert ParseIngredients(raw) == ["rice", "peas"];
  }

  /** Raw text `","` passes the emptiness check yet leaves no ingredient at all. */
  lemma ParseLoneComma()
    ensures Trim(",") == "," && ParseIngredients(",") == []
  {
    var raw := ",";
    var pieces: seq<string> := ["", ""];
    TrimPadded("", raw, "");
    assert ToLower(raw) == Join(pieces, ",");
    ParseVia(raw, pieces);
    TrimAllTwo();
    var keep := NonEmpty();
    assert Filter(keep, [""]) == [];
    assert Filter(keep, ["", ""]) == Filter(keep, [""]);
    assert ParseIngredients(raw) == [];
  }

  // The custom-recipe list

  /** The ingredient line of a custom recipe on the custom-recipes page, as script.js:148 writes it. */
  function CustomIngredientsAsWritten(r: Recipe): string {
    Join(r.items, ", ")
  }

  /** The same line with each token escaped, as the suggestion box already does. */
  function CustomIngredients(r: Recipe): string {
    IngredientsMarkup(r.items)
  }

  /** A tag typed as an ingredient is accepted and reaches the page as live markup. */
  lemma IngredientMarkupInjected()
    ensures var r := Recipe("x", ParseIngredients("<img src=x onerror=alert(1)>"));
      '<' in CustomIngredientsAsWritten(r)
  {
    var tag := "<img src=x onerror=alert(1)>";
    assert IsToken(tag);
    ParseJoin([tag]);
    assert Join([tag], ", ") == tag;
    assert CustomIngredientsAsWritten(Recipe("x", [tag]))[0] == '<';
  }

  /** With the tokens escaped, no user text can open a tag or an attribute value. */
  lemma CustomIngredientsEscaped(r: Recipe)
    ensures forall k :: 0 <= k < |CustomIngredients(r)| ==> !IsMarkup(CustomIngredients(r)[k])
  {
    var plain := (c: char) => !IsMarkup(c);
    var escaped := EscapeAll(r.items);
    forall k | 0 <= k < |escaped|
      ensures AllChars(escaped[k], plain)
    {
      var e := Escape(r.items[k]);
      assert escaped[k] == e;
      assert forall c :: 0 <= c < |e| ==> plain(e[c]);
    }
    assert AllChars(", ", plain);
    JoinAllChars(escaped, ", ", plain);
  }
}
