/** What the recipe view shows (components/RecipeDisplay.tsx): the nutrient labels and
    their camelCase fallback, the nutrient lines, the three-way image area and the order
    of ingredients and instructions. The rendered page is modelled as a value that keeps
    the text of each element and drops the markup and styling. `t` is `Translate` over
    the active and the English tables. */
module RecipeDisplay {
  import opened Wrappers
  import opened JsString
  import opened Types
  import opened I18n
  import opened LanguageContext

  const NutrientKeyPrefix: string := "nutrient_"

  /** The translation key of the label used when a nutrient has no label of its own. */
  const DefaultFormatKey: string := "nutrient_default_format"

  // ---------------------------------------------------------------------------
  // nutrient labels

  /** `getNutrientTranslationKey`: the prefix followed by the lower-cased nutrient key. */
  function NutrientTranslationKey(nutrientKey: string): (r: string)
    ensures |r| == |NutrientKeyPrefix| + |nutrientKey|
    ensures r[..|NutrientKeyPrefix|] == NutrientKeyPrefix
    ensures forall i :: 0 <= i < |nutrientKey| ==> r[|NutrientKeyPrefix| + i] == ToLowerChar(nutrientKey[i])
  {
    NutrientKeyPrefix + ToLower(nutrientKey)
  }

  /** Two nutrient keys share a translation key exactly when they agree up to case. */
  lemma TranslationKeyIgnoresCase(a: string, b: string)
    ensures NutrientTranslationKey(a) == NutrientTranslationKey(b) <==> ToLower(a) == ToLower(b)
  {
    var ka, kb := NutrientTranslationKey(a), NutrientTranslationKey(b);
    if ka == kb {
      assert ToLower(a) == ka[|NutrientKeyPrefix|..];
      assert ToLower(b) == kb[|NutrientKeyPrefix|..];
    }
  }

  /** The characters the regular expression `.` does not match. */
  predicate IsLineTerminator(c: char) {
    c == '\n' || c == '\r' || c == '\U{2028}' || c == '\U{2029}'
  }

  /** `replace(/([A-Z])/g, ' $1')`: a space before every upper-case letter. */
  function SpaceBeforeCaps(s: string): (r: string)
    ensures |r| >= |s|
  {
    if s == [] then []
    else (if IsUpper(s[0]) then [' ', s[0]] else [s[0]]) + SpaceBeforeCaps(s[1..])
  }

  /** A string without capitals is left as it is. */
  lemma {:induction false} SpaceBeforeCapsNoCaps(s: string)
    requires forall i :: 0 <= i < |s| ==> !IsUpper(s[i])
    ensures SpaceBeforeCaps(s) == s
    decreases |s|
  {
    if s != [] {
      assert !IsUpper(s[0]);
      forall i | 0 <= i < |s| - 1 ensures !IsUpper(s[1..][i]) {
        assert s[1..][i] == s[i + 1];
      }
      SpaceBeforeCapsNoCaps(s[1..]);
      assert s == [s[0]] + s[1..];
    }
  }

  /** Position `i` of `r` holds no capital, or one with a space just before it. */
  predicate SpacedAt(r: string, i: int)
    requires 0 <= i < |r|
  {
    IsUpper(r[i]) ==> 0 < i && r[i - 1] == ' '
  }

  /** Every capital of the result has a space in front of it. */
  lemma {:induction false} CapitalsFollowSpaces(s: string)
    ensures forall i :: 0 <= i < |SpaceBeforeCaps(s)| ==> SpacedAt(SpaceBeforeCaps(s), i)
    decreases |s|
  {
    if s != [] {
      CapitalsFollowSpaces(s[1..]);
      var head := if IsUpper(s[0]) then [' ', s[0]] else [s[0]];
      var tail := SpaceBeforeCaps(s[1..]);
      var r := SpaceBeforeCaps(s);
      assert r == head + tail;
      forall i | 0 <= i < |r| ensures SpacedAt(r, i) {
        if i >= |head| {
          assert r[i] == tail[i - |head|];
          assert SpacedAt(tail, i - |head|);
          if i - |head| > 0 {
            assert r[i - 1] == tail[i - |head| - 1];
          } else {
            assert !IsUpper(tail[0]) by { assert SpacedAt(tail, 0); }
          }
        }
      }
    }
  }

  /** The string with every space removed. */
  function DropSpaces(s: string): (r: string)
    ensures ' ' !in r
  {
    if s == [] then [] else (if s[0] == ' ' then [] else [s[0]]) + DropSpaces(s[1..])
  }

  lemma {:induction false} DropSpacesAppend(a: string, b: string)
    ensures DropSpaces(a + b) == DropSpaces(a) + DropSpaces(b)
    decreases |a|
  {
    if a != [] {
      assert (a + b)[1..] == a[1..] + b;
      DropSpacesAppend(a[1..], b);
    } else {
      assert a + b == b;
    }
  }

  /** The inserted spaces are the only change: apart from spaces, the text is the key. */
  lemma {:induction false} SpaceBeforeCapsOnlyAddsSpaces(s: string)
    ensures DropSpaces(SpaceBeforeCaps(s)) == DropSpaces(s)
    decreases |s|
  {
    if s != [] {
      var head := if IsUpper(s[0]) then [' ', s[0]] else [s[0]];
      DropSpacesAppend(head, SpaceBeforeCaps(s[1..]));
      SpaceBeforeCapsOnlyAddsSpaces(s[1..]);
      assert DropSpaces(head) == DropSpaces([s[0]]) by {
        assert head[1..] == [s[0]] || head[1..] == [];
      }
      assert s == [s[0]] + s[1..];
      DropSpacesAppend([s[0]], s[1..]);
    }
  }

  /** `replace(/^./, str => str.toUpperCase())`: the first character upper-cased, unless
      the string is empty or starts with a line terminator. */
  function Capitalize(s: string): (r: string)
    ensures |r| == |s|
    ensures s != [] ==> r[1..] == s[1..]
    ensures s != [] && !IsLineTerminator(s[0]) ==> r[0] == ToUpperChar(s[0])
    ensures s == [] || IsLineTerminator(s[0]) ==> r == s
  {
    if s != [] && !IsLineTerminator(s[0]) then [ToUpperChar(s[0])] + s[1..] else s
  }

  /** Upper-casing the first character a second time changes nothing. */
  lemma CapitalizeIdempotent(s: string)
    ensures Capitalize(Capitalize(s)) == Capitalize(s)
  {
    if s != [] && !IsLineTerminator(s[0]) {
      var c := ToUpperChar(s[0]);
      assert !IsLineTerminator(c);
      assert ToUpperChar(c) == c;
      assert Capitalize(s) == [c] + s[1..];
    }
  }

  /** The `key` parameter of the fallback label: spaced at capitals, then capitalised. */
  function FallbackLabel(nutrientKey: string): (r: string)
    ensures |r| >= |nutrientKey|
  {
    Capitalize(SpaceBeforeCaps(nutrientKey))
  }

  lemma {:induction false} SpaceBeforeCapsAppend(a: string, b: string)
    ensures SpaceBeforeCaps(a + b) == SpaceBeforeCaps(a) + SpaceBeforeCaps(b)
    decreases |a|
  {
    if a == [] {
      assert a + b == b;
    } else {
      assert (a + b)[1..] == a[1..] + b;
      SpaceBeforeCapsAppend(a[1..], b);
    }
  }

  /** A word with one leading capital gets a single space in front. */
  lemma CapitalisedWordSpaced(word: string)
    requires word != [] && IsUpper(word[0])
    requires forall i :: 1 <= i < |word| ==> !IsUpper(word[i])
    ensures SpaceBeforeCaps(word) == " " + word
  {
    var rest := word[1..];
    forall i | 0 <= i < |rest| ensures !IsUpper(rest[i]) {
      assert rest[i] == word[i + 1];
    }
    SpaceBeforeCapsNoCaps(rest);
    assert SpaceBeforeCaps(word) == [' ', word[0]] + SpaceBeforeCaps(rest);
    ConsSpace(word);
  }

  lemma ConsSpace(word: string)
    requires word != []
    ensures [' ', word[0]] + word[1..] == " " + word
  {
    assert word == [word[0]] + word[1..];
  }

  /** A string starting with a lower-case letter gets that letter upper-cased. */
  lemma CapitalizeLower(s: string)
    requires s != [] && 'a' <= s[0] <= 'z'
    ensures Capitalize(s) == [ToUpperChar(s[0])] + s[1..]
  {
  }

  /** A camelCase pair of words becomes two words separated by a space, the first one
      capitalised: "vitaminD" becomes "Vitamin D". The first word is its initial `head`
      followed by `rest`. */
  lemma CamelCaseLabel(head: char, rest: string, second: string)
    requires 'a' <= head <= 'z'
    requires forall i :: 0 <= i < |rest| ==> !IsUpper(rest[i])
    requires second != [] && IsUpper(second[0])
    requires forall i :: 1 <= i < |second| ==> !IsUpper(second[i])
    ensures FallbackLabel([head] + rest + second) == [ToUpperChar(head)] + rest + " " + second
  {
    var first := [head] + rest;
    forall i | 0 <= i < |first| ensures !IsUpper(first[i]) {
      if i > 0 { assert first[i] == rest[i - 1]; }
    }
    SpaceBeforeCapsAppend(first, second);
    SpaceBeforeCapsNoCaps(first);
    CapitalisedWordSpaced(second);
    var spaced := [head] + (rest + (" " + second));
    ConsAssoc(head, rest, " " + second);
    assert SpaceBeforeCaps(first + second) == spaced;
    CapitalizeLower(spaced);
    TailOfCons(head, rest + (" " + second));
    ConsAssoc3(ToUpperChar(head), rest, " ", second);
  }

  lemma ConsAssoc(x: char, a: string, b: string)
    ensures [x] + a + b == [x] + (a + b)
  {
  }

  lemma TailOfCons(x: char, a: string)
    ensures ([x] + a)[0] == x && ([x] + a)[1..] == a
  {
  }

  lemma ConsAssoc3(x: char, a: string, b: string, c: string)
    ensures [x] + (a + (b + c)) == [x] + a + b + c
  {
  }

  /** A camel-case key such as "vitaminD" is shown as "Vitamin D". */
  lemma VitaminDLabel()
    ensures FallbackLabel("vitaminD") == "Vitamin D"
  {
    CamelCaseLabel('v', "itamin", "D");
    assert ['v'] + "itamin" + "D" == "vitaminD";
    assert ['V'] + "itamin" + " " + "D" == "Vitamin D";
  }

  /** A key that already starts with a capital keeps the inserted space in front. */
  lemma LeadingCapitalGivesLeadingSpace(nutrientKey: string)
    requires nutrientKey != [] && IsUpper(nutrientKey[0])
    ensures FallbackLabel(nutrientKey)[0] == ' '
    ensures FallbackLabel(nutrientKey)[1] == nutrientKey[0]
  {
    var spaced := SpaceBeforeCaps(nutrientKey);
    assert spaced[0] == ' ' && spaced[1] == nutrientKey[0];
    assert spaced[1..][0] == spaced[1];
  }

  /** The label of a nutrient: its own translation, or the default format with the
      fallback label when `t` hands back the translation key unchanged. */
  function NutrientLabel(current: Table, english: Table, nutrientKey: string): string {
    var translationKey := NutrientTranslationKey(nutrientKey);
    var displayKey := Translate(current, english, translationKey, None);
    if displayKey == translationKey then
      Translate(current, english, DefaultFormatKey, Some([("key", FallbackLabel(nutrientKey))]))
    else
      displayKey
  }

  /** A nutrient with a translation of its own (one that is not the key itself) shows it. */
  lemma NutrientLabelTranslated(current: Table, english: Table, nutrientKey: string)
    requires NutrientTranslationKey(nutrientKey) in current
    requires current[NutrientTranslationKey(nutrientKey)] != NutrientTranslationKey(nutrientKey)
    ensures NutrientLabel(current, english, nutrientKey) == current[NutrientTranslationKey(nutrientKey)]
  {
    InterpolateNoParams(current[NutrientTranslationKey(nutrientKey)]);
  }

  /** `t` hands back a key that neither table has. */
  lemma MissingKeyEchoed(current: Table, english: Table, key: string)
    requires key !in current && key !in english
    ensures Translate(current, english, key, None) == key
  {
    InterpolateNoParams(key);
  }

  /** The default format, when it is chunks separated by `{key}`, filled with `value`. */
  lemma DefaultFormatFilled(current: Table, english: Table, chunks: seq<string>, value: string)
    requires Lookup(current, english, DefaultFormatKey) == Join(chunks, Placeholder("key"))
    requires forall i :: 0 <= i < |chunks| ==> !Includes(chunks[i], Placeholder("key"))
    ensures Translate(current, english, DefaultFormatKey, Some([("key", value)])) == Join(chunks, value)
  {
    assert '{' !in "key";
    SubstituteOne(chunks, "key", value);
  }

  /** A nutrient missing from both tables shows the default format filled with its
      fallback label. When the format is chunks separated by `{key}`, the label is the
      same chunks separated by the fallback label. */
  lemma NutrientLabelFallback(current: Table, english: Table, nutrientKey: string, chunks: seq<string>)
    requires NutrientTranslationKey(nutrientKey) !in current
    requires NutrientTranslationKey(nutrientKey) !in english
    requires Lookup(current, english, DefaultFormatKey) == Join(chunks, Placeholder("key"))
    requires forall i :: 0 <= i < |chunks| ==> !Includes(chunks[i], Placeholder("key"))
    ensures NutrientLabel(current, english, nutrientKey) == Join(chunks, FallbackLabel(nutrientKey))
  {
    MissingKeyEchoed(current, english, NutrientTranslationKey(nutrientKey));
    DefaultFormatFilled(current, english, chunks, FallbackLabel(nutrientKey));
  }

  /** With the format "{key}" and no translation, "vitaminD" is labelled "Vitamin D". */
  lemma VitaminDFallback(current: Table, english: Table)
    requires NutrientTranslationKey("vitaminD") !in current
    requires NutrientTranslationKey("vitaminD") !in english
    requires Lookup(current, english, DefaultFormatKey) == "{key}"
    ensures NutrientLabel(current, english, "vitaminD") == "Vitamin D"
  {
    var chunks: seq<string> := ["", ""];
    assert Join(chunks, Placeholder("key")) == "{key}" by {
      assert Join(chunks[1..], Placeholder("key")) == "";
    }
    assert Join(chunks, "Vitamin D") == "Vitamin D" by {
      assert Join(chunks[1..], "Vitamin D") == "";
    }
    assert !Includes("", Placeholder("key"));
    NutrientLabelFallback(current, english, "vitaminD", chunks);
    VitaminDLabel();
  }

  // ---------------------------------------------------------------------------
  // nutrient lines

  /** A labelled line: `caption: value`. */
  datatype InfoLine = InfoLine(caption: string, value: string)

  /** The `Object.entries(...).map(...)` list: one line per entry with a truthy value, in
      entry order; an entry with a missing or empty value renders nothing. `labelOf` is
      the label the page computes for a nutrient key (`NutrientLabel` in `Render`). */
  function NutrientLines(labelOf: string -> string, entries: seq<(string, Option<string>)>): (r: seq<InfoLine>)
    ensures |r| <= |entries|
    ensures forall i :: 0 <= i < |r| ==> r[i].value != ""
  {
    if entries == [] then []
    else
      var rest := NutrientLines(labelOf, entries[1..]);
      if Truthy(entries[0].1) then [InfoLine(labelOf(entries[0].0), entries[0].1.value)] + rest
      else rest
  }

  lemma {:induction false} NutrientLinesAppend(labelOf: string -> string, a: seq<(string, Option<string>)>, b: seq<(string, Option<string>)>)
    ensures NutrientLines(labelOf, a + b) == NutrientLines(labelOf, a) + NutrientLines(labelOf, b)
    decreases |a|
  {
    if a == [] {
      assert a + b == b;
    } else {
      assert (a + b)[1..] == a[1..] + b;
      NutrientLinesAppend(labelOf, a[1..], b);
    }
  }

  /** An entry with a falsy value contributes no line, wherever it stands. */
  lemma FalsyNutrientSkipped(labelOf: string -> string, pre: seq<(string, Option<string>)>,
                             key: string, value: Option<string>, post: seq<(string, Option<string>)>)
    requires !Truthy(value)
    ensures NutrientLines(labelOf, pre + [(key, value)] + post)
         == NutrientLines(labelOf, pre) + NutrientLines(labelOf, post)
  {
    var entry := [(key, value)];
    NutrientLinesAppend(labelOf, pre + entry, post);
    NutrientLinesAppend(labelOf, pre, entry);
    assert entry[1..] == [];
    assert NutrientLines(labelOf, entry) == [];
  }

  /** When every value is truthy, each entry gives exactly its own line, in order. */
  lemma {:induction false} TruthyNutrientsAllShown(labelOf: string -> string, entries: seq<(string, Option<string>)>)
    requires forall i :: 0 <= i < |entries| ==> entries[i].1.Some? && entries[i].1.value != ""
    ensures |NutrientLines(labelOf, entries)| == |entries|
    ensures forall i :: 0 <= i < |entries| ==>
      NutrientLines(labelOf, entries)[i] == InfoLine(labelOf(entries[i].0), entries[i].1.value)
    decreases |entries|
  {
    if entries != [] {
      var rest := entries[1..];
      TruthyNutrientsAllShown(labelOf, rest);
      var lines := NutrientLines(labelOf, entries);
      var head := InfoLine(labelOf(entries[0].0), entries[0].1.value);
      assert lines == [head] + NutrientLines(labelOf, rest);
      forall i | 1 <= i < |entries|
        ensures lines[i] == InfoLine(labelOf(entries[i].0), entries[i].1.value)
      {
        assert entries[i] == rest[i - 1];
      }
    }
  }

  // ---------------------------------------------------------------------------
  // the image area and the page

  /** The three things that can fill the image area. */
  datatype ImageArea = Spinner(message: string) | MealImage(src: string, alt: string) | ImagePlaceholder

  /** The three guarded elements of the image area, in page order. Exactly one of them is
      rendered: the spinner while the image loads, otherwise the image when there is one
      and the placeholder when there is none. */
  function ImageAreaElements(current: Table, english: Table, isLoadingImage: bool,
                             mealImage: Option<string>, mealName: string): (r: seq<ImageArea>)
    ensures |r| == 1
    ensures r[0].Spinner? <==> isLoadingImage
    ensures r[0].MealImage? <==> !isLoadingImage && Truthy(mealImage)
    ensures r[0].ImagePlaceholder? <==> !isLoadingImage && !Truthy(mealImage)
    ensures r[0].MealImage? ==> r[0] == MealImage(mealImage.value, mealName)
  {
    (if isLoadingImage then [Spinner(Translate(current, english, "loadingImage", None))] else [])
    + (if !isLoadingImage && Truthy(mealImage) then [MealImage(mealImage.value, mealName)] else [])
    + (if !isLoadingImage && !Truthy(mealImage) then [ImagePlaceholder] else [])
  }

  /** The rendered view: the lone message for a missing recipe, otherwise the card. */
  datatype RecipeView =
    | NoRecipe(message: string)
    | RecipeCard(
        title: string,
        imageArea: seq<ImageArea>,
        quickInfo: seq<InfoLine>,
        nutrition: Option<seq<InfoLine>>,
        ingredients: seq<InfoLine>,
        instructions: seq<string>)

  /** The quick-info box: preparation and cooking time, then the serving suggestion when
      it is truthy. */
  function QuickInfo(current: Table, english: Table, recipe: Recipe): (r: seq<InfoLine>)
    ensures |r| == (if Truthy(recipe.servingSuggestion) then 3 else 2)
    ensures r[0].value == recipe.prepTime && r[1].value == recipe.cookTime
    ensures |r| == 3 ==> r[2].value == recipe.servingSuggestion.value
  {
    [InfoLine(Translate(current, english, "prepTime", None), recipe.prepTime),
     InfoLine(Translate(current, english, "cookTime", None), recipe.cookTime)]
    + (if Truthy(recipe.servingSuggestion)
       then [InfoLine(Translate(current, english, "servingSuggestion", None), recipe.servingSuggestion.value)]
       else [])
  }

  /** The label each nutrient line gets, under the active tables. */
  function LabelOf(current: Table, english: Table): string -> string {
    k => NutrientLabel(current, english, k)
  }

  /** `RecipeDisplay({recipe, mealImage, isLoadingImage})`. The nutrition box is present
      whenever the recipe has a nutrition object, even one whose lines are all skipped. */
  function Render(current: Table, english: Table, recipe: Option<Recipe>,
                  mealImage: Option<string>, isLoadingImage: bool): (r: RecipeView)
    ensures r.NoRecipe? <==> recipe.None?
    ensures recipe.None? ==> r.message == Translate(current, english, "noRecipeAvailable", None)
    ensures r.RecipeCard? ==>
      && r.title == recipe.value.mealName
      && r.imageArea == ImageAreaElements(current, english, isLoadingImage, mealImage, recipe.value.mealName)
      && r.quickInfo == QuickInfo(current, english, recipe.value)
      && (r.nutrition.Some? <==> recipe.value.nutritionalInfo.Some?)
      && (r.nutrition.Some? ==>
            r.nutrition.value == NutrientLines(LabelOf(current, english), recipe.value.nutritionalInfo.value))
      && |r.ingredients| == |recipe.value.ingredients|
      && (forall i :: 0 <= i < |r.ingredients| ==>
            r.ingredients[i] == InfoLine(recipe.value.ingredients[i].name, recipe.value.ingredients[i].quantity))
      && r.instructions == recipe.value.instructions
  {
    match recipe
    case None => NoRecipe(Translate(current, english, "noRecipeAvailable", None))
    case Some(rc) =>
      RecipeCard(
        rc.mealName,
        ImageAreaElements(current, english, isLoadingImage, mealImage, rc.mealName),
        QuickInfo(current, english, rc),
        match rc.nutritionalInfo {
          case None => None
          case Some(entries) => Some(NutrientLines(LabelOf(current, english), entries))
        },
        seq(|rc.ingredients|, i requires 0 <= i < |rc.ingredients| =>
          InfoLine(rc.ingredients[i].name, rc.ingredients[i].quantity)),
        rc.instructions)
  }

  /** On the rendered card, a nutrition object whose values are all present and non-empty
      gives one line per entry, in order, each with its nutrient label and its value. */
  lemma RenderedNutritionAllShown(current: Table, english: Table, recipe: Recipe,
                                  mealImage: Option<string>, isLoadingImage: bool)
    requires recipe.nutritionalInfo.Some?
    requires forall i :: 0 <= i < |recipe.nutritionalInfo.value| ==>
      recipe.nutritionalInfo.value[i].1.Some? && recipe.nutritionalInfo.value[i].1.value != ""
    ensures var card := Render(current, english, Some(recipe), mealImage, isLoadingImage);
      var entries := recipe.nutritionalInfo.value;
      && card.nutrition.Some?
      && |card.nutrition.value| == |entries|
      && forall i :: 0 <= i < |entries| ==>
           card.nutrition.value[i] == InfoLine(NutrientLabel(current, english, entries[i].0), entries[i].1.value)
  {
    TruthyNutrientsAllShown(LabelOf(current, english), recipe.nutritionalInfo.value);
  }

  /** On the rendered card, an entry with an absent or empty value adds no line. */
  lemma RenderedNutritionSkipsFalsy(current: Table, english: Table, recipe: Recipe,
                                    mealImage: Option<string>, isLoadingImage: bool,
                                    pre: seq<(string, Option<string>)>, key: string, value: Option<string>,
                                    post: seq<(string, Option<string>)>)
    requires recipe.nutritionalInfo == Some(pre + [(key, value)] + post)
    requires !Truthy(value)
    ensures Render(current, english, Some(recipe), mealImage, isLoadingImage).nutrition
      == Some(NutrientLines(LabelOf(current, english), pre + post))
  {
    FalsyNutrientSkipped(LabelOf(current, english), pre, key, value, post);
    NutrientLinesAppend(LabelOf(current, english), pre, post);
  }
}
