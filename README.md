# Fridge-to-meal assistant: a Dafny model of its core

The application is a React front end around the Gemini API. The user photographs the
contents of a refrigerator. The application sends the picture to a text model, which
lists the ingredients. The user then enters dietary preferences. From these the
application asks for a personalised menu for an older adult, then a recipe for a chosen
meal, and finally a picture of that meal. The user interface is available in English
and Thai.

This project models the decision-carrying core of that application:

- the tolerant extractor that recovers JSON from model replies
  (`services/geminiService.ts`, module `GeminiService`);
- the prompts and request wrapping of the four service calls (`GeminiService`, with the
  template literals in `PromptText`);
- the preference form's list parsing, focus toggle and submission (`PreferenceForm`);
- the translation lookup and locale switching (`LanguageContext`, with the class
  `LanguageProvider`) and `getEnglishTranslation` (`I18n`);
- the recipe display rules: nutrient labels, the nutrient filter, the image area, quick
  info and the lists (`RecipeDisplay`);
- the image uploader's state machine (`ImageUploader`, with the class `Uploader`);
- the constants (`Constants`) and the record types (`Types`).

The JavaScript built-ins these use are stated character by character in `JsString`:
`trim`, `split` on one character, `join`, `indexOf`, `lastIndexOf`, `substring` with
its clamping and swapping, `includes`, a global replace of a literal pattern, and ASCII
case mapping. `Lists` holds removal from a list, which is `filter(f => f !== x)`.

Foreign code is passed in as a parameter. `JSON.parse` is a partial function
`string -> Option<J>`. The Gemini SDK calls are functions from a request record to a
`Result`. The `analyzeImage` callback is a function from the payload to a `Result`.
Browser facilities are plain values: the presence of `window`, `localStorage` as a map
field, whether `getUserMedia` exists and whether access was granted, and the data URL a
`FileReader` or a canvas produced. Each handler that awaits a call
(`handleAnalyze` and `startCamera`) is split into two methods. The first runs up to the
call. The second takes the call's outcome. A third method composes the two.

Two points of the service and uploader code that shape the model:

- Service failures. Each service operation throws its own fixed message and drops the
  underlying error (`services/geminiService.ts:78`, `:133`, `:192`, `:213`). The
  uploader then tests that fixed message for "API key"
  (`components/ImageUploader.tsx:99-101`). The analysis message itself mentions "API
  key" (`AnalyzeFailureMentionsApiKey`). So every analysis failure is shown as the
  generic translated message (`ServiceFailureShowsGenericMessage`).
- The recipe call returns `null` when nothing can be extracted. The ingredient and menu
  calls return an empty list.

## Model

| member | source | states |
|---|---|---|
| GeminiService.ParseJsonFromGeminiResponse | services/geminiService.ts:14-45 | the imperative extractor (reassigned `jsonStr`, three parse attempts with early returns) returns exactly the value of the specification function `ExtractJson` |
| GeminiService.FenceBody | services/geminiService.ts:16-17 | there is a match iff the text opens and closes with a three-backtick fence. The captured body neither starts nor ends with whitespace |
| GeminiService.StripFence | services/geminiService.ts:18-20 | the text changes only when the fence matches with a non-empty body, and trimmed text stays trimmed |
| GeminiService.Unwrap | services/geminiService.ts:15-20 | the text handed to the parser never starts or ends with whitespace. A reply whose trimmed form does not start with a backtick is only trimmed |
| GeminiService.Candidates | services/geminiService.ts:21-42 | the unwrapped text comes first, then the array span when there is one, and the object span last |
| GeminiService.FirstSuccess | services/geminiService.ts:21-43 | any value found is the parse of one of the candidates |
| GeminiService.ExtractJson | services/geminiService.ts:14-45 | the specification of the extractor. It is characterised by `CandidatesChain`, `ExtractNullIff` and `ExtractParsesSubstring` |
| GeminiService.TrySpan | services/geminiService.ts:25-42 | one recovery attempt: parses the first-open-to-last-close span when both delimiters occur, and gives up otherwise |
| GeminiService.Span | services/geminiService.ts:25-42 | a span exists iff both delimiters occur. In order, it is the text from the first opening to the last closing delimiter, starting and ending with them. When the closing delimiter comes first, `substring` swaps its bounds and yields the text between them |
| GeminiService.SpanIsSubstring | services/geminiService.ts:27-38 | every span is a contiguous piece of the unwrapped text |
| GeminiService.DropWordChars | services/geminiService.ts:16 | the language tag `(\w*)` consumes the longest prefix of word characters, and what remains does not begin with one |
| GeminiService.CandidatesChain | services/geminiService.ts:21-43 | the attempts run in source order: the whole text, then the array span, then the object span, then `null` |
| GeminiService.ExtractStrictFirst | services/geminiService.ts:21-22 | when the unwrapped text parses, that value is returned and no span is tried |
| GeminiService.ExtractRecoveryOrder | services/geminiService.ts:24-43 | after a strict failure, the array span is tried first. The object span is tried only when the array span is absent or fails to parse |
| GeminiService.ExtractNullIff | services/geminiService.ts:43 | the extractor yields `null` exactly when every attempt it makes fails |
| GeminiService.ExtractParsesSubstring | services/geminiService.ts:14-45 | any value the extractor returns is the parse of some substring of the unwrapped text |
| GeminiService.FirstSuccessNone | services/geminiService.ts:21-43 | a chain of attempts fails iff every single attempt fails |
| GeminiService.FirstSuccessAppend | services/geminiService.ts:21-43 | a chain of attempts splits at any point: the later attempts run only when the earlier ones all fail |
| GeminiService.DropWordCharsPrefix | services/geminiService.ts:16 | a word-character tag followed by a non-word character is dropped exactly |
| GeminiService.FenceBodyBetweenFences | services/geminiService.ts:16-17 | for text between two fences, the captured body is the inside with the tag dropped and the whitespace trimmed on both sides |
| GeminiService.FenceBodyOfBlock | services/geminiService.ts:16-17 | a fenced block made of a tag, a whitespace gap, a trimmed body and trailing whitespace yields exactly that body |
| GeminiService.UnwrapPadded | services/geminiService.ts:15 | whitespace around a backtick-delimited reply does not change how it is unwrapped |
| GeminiService.UnwrapBacktickDelimited | services/geminiService.ts:15-19 | a trimmed reply that starts and ends with a backtick goes to the fence test unchanged |
| GeminiService.StripMatchedFence | services/geminiService.ts:18-19 | a fence match with a non-empty body is replaced by that body, trimmed |
| GeminiService.UnwrapMatchedFence | services/geminiService.ts:15-19 | a fenced reply whose body is already trimmed unwraps to that body |
| GeminiService.UnwrapFencedBlock | services/geminiService.ts:15-19 | a whitespace-padded fenced block with an optional tag unwraps to its body |
| GeminiService.FencedJsonParsed | services/geminiService.ts:14-22 | a fenced block whose body parses yields the parse of that body, the same value as parsing the body directly |
| GeminiService.WordOnlyFenceKept | services/geminiService.ts:16-19 | a fence holding only a tag (an empty body) is not stripped, and the whole text goes to the parser |
| GeminiService.TaggedBody | services/geminiService.ts:16-18 | after the tag is dropped, trimming leaves the body alone |
| GeminiService.EmbeddedUnwrap | services/geminiService.ts:15-20 | text without a leading fence is only trimmed |
| GeminiService.SpanOfEmbedded | services/geminiService.ts:25-42 | a delimited piece with no opening delimiter before it and no closing delimiter after it is exactly the span found |
| GeminiService.ProseArrayRecovered | services/geminiService.ts:21-33 | an array inside prose is recovered when the whole text does not parse |
| GeminiService.ProseObjectRecovered | services/geminiService.ts:21-42 | an object inside prose is recovered when neither the whole text nor the array span parses |
| GeminiService.FirstSuccessOfOption | services/geminiService.ts:27-41 | an optional span contributes one attempt when present and none when absent |
| GeminiService.RenderListFallback | services/geminiService.ts:94-102 | a list renders as its `", "` join, or as the fallback phrase when that join is empty. The rendering is never empty |
| GeminiService.RenderList | services/geminiService.ts:94-102 | definition of a list's `join(', ')`, or the fallback phrase when that join is empty. It is characterised by `RenderListFallback` |
| GeminiService.AnalyzePrompt | services/geminiService.ts:61-66 | definition of the analysis prompt. Its locale behaviour is stated by `AnalyzePromptLocale` |
| GeminiService.MenuPrompt | services/geminiService.ts:94-121 | definition of the menu prompt. Its locale behaviour is stated by `MenuPromptLocale`, and its default slots by `DefaultPreferenceSlots` |
| GeminiService.RecipePrompt | services/geminiService.ts:144-181 | definition of the recipe prompt. Its locale behaviour is stated by `RecipePromptLocale` |
| GeminiService.ImagePrompt | services/geminiService.ts:202 | definition of the English image prompt around the meal name |
| GeminiService.AnalyzeRequest | services/geminiService.ts:68-72 | definition of the analysis request: image part, prompt part, JSON reply. Its model is stated by `RequestsUseFixedModels` |
| GeminiService.MenuRequest | services/geminiService.ts:123-127 | definition of the menu request. Its model is stated by `RequestsUseFixedModels` |
| GeminiService.RecipeRequest | services/geminiService.ts:183-187 | definition of the recipe request. Its model is stated by `RequestsUseFixedModels` |
| GeminiService.MealImageRequest | services/geminiService.ts:200-204 | definition of the image request. Its model and image count are stated by `RequestsUseFixedModels` |
| GeminiService.FocusTerms | services/geminiService.ts:85-87 | each focus key, in order, becomes its English option label `nutritionalFocusOptions_<key>` |
| GeminiService.AnalyzeLanguageInstruction | services/geminiService.ts:56-59 | the analysis directive is empty iff the locale is not Thai, and is the fixed Thai directive for Thai |
| GeminiService.MenuLanguageInstruction | services/geminiService.ts:89-92 | the same choice for the menu prompt |
| GeminiService.RecipeLanguageInstruction | services/geminiService.ts:139-142 | the same choice for the recipe prompt |
| GeminiService.SpliceDirective | services/geminiService.ts:61-66 | inserting a directive before a known tail places it between head and tail, and an empty directive leaves the text unchanged |
| GeminiService.AnalyzePromptLocale | services/geminiService.ts:61-66 | the Thai analysis prompt is the English one with the Thai directive inserted before the last template piece, and every other locale gets the English prompt |
| GeminiService.MenuPromptLocale | services/geminiService.ts:94-121 | for every ingredient list and preference record, the Thai menu prompt is the English one with the Thai directive inserted, and other locales get the English prompt |
| GeminiService.RecipePromptLocale | services/geminiService.ts:144-181 | the same relation for the recipe prompt |
| GeminiService.DefaultPreferenceSlots | services/geminiService.ts:85-102 | with the default preferences, the focus slot lists the English labels of "easyToChew" and "highProtein", and the other four slots show "None specified" |
| GeminiService.AnalyzeRefrigeratorImage | services/geminiService.ts:47-80 | fails with the fixed analysis message iff the service gives no text. Otherwise it returns the extracted list, or `[]` when extraction yields `null` |
| GeminiService.GeneratePersonalizedMenu | services/geminiService.ts:82-135 | fails with the fixed menu message iff the service gives no text. Otherwise it returns the extracted meals, or `[]` |
| GeminiService.GenerateRecipe | services/geminiService.ts:137-194 | fails with the fixed recipe message iff the service gives no text. Otherwise it returns the extracted recipe, or `null` |
| GeminiService.FirstImageBytes | services/geminiService.ts:206-209 | bytes are found iff the first generated image exists and has non-empty bytes, and then they are those bytes |
| GeminiService.GenerateMealImage | services/geminiService.ts:196-215 | succeeds iff the first image has bytes, with the value `"data:image/jpeg;base64," + bytes`. Otherwise it fails with "Failed to generate image for <mealName>." |
| GeminiService.UnreadableReplyIsEmpty | services/geminiService.ts:74-75 | a reply from which nothing can be extracted gives `[]` for analysis and menu and `null` for the recipe, and none of them fails |
| GeminiService.RequestsUseFixedModels | services/geminiService.ts:68-72 | the three text calls use the text model. The image call asks the distinct image model for one picture |
| GeminiService.AnalyzeFailureMentionsApiKey | services/geminiService.ts:78 | the analysis failure message contains "API key" |
| PreferenceForm.MapTrim | components/PreferenceForm.tsx:50 | `.map(s => s.trim())` keeps one entry per piece, and entry `i` is piece `i` trimmed |
| PreferenceForm.FilterNonEmpty | components/PreferenceForm.tsx:50 | `.filter(s => s)` never lengthens the list and leaves no empty entry |
| PreferenceForm.FilterNonEmptyMembers | components/PreferenceForm.tsx:50 | a string is in the filtered list iff it is a non-empty entry of the input |
| PreferenceForm.FilterNonEmptyCons | components/PreferenceForm.tsx:50 | the filter looks at the first entry, keeps it iff it is non-empty, and goes on with the rest in order |
| PreferenceForm.FilterNonEmptyAppend | components/PreferenceForm.tsx:50 | filtering a concatenation filters each part and keeps the parts in order |
| PreferenceForm.FilterNonEmptyKeepsNonEmpty | components/PreferenceForm.tsx:50 | a list without empty entries passes the filter unchanged |
| PreferenceForm.ParseList | components/PreferenceForm.tsx:50 | definition of `value.split(',').map(s => s.trim()).filter(s => s)`. Its properties are stated by `ParseListItems`, `ParseListAtComma` and `DisplayParseRoundTrip` |
| PreferenceForm.Display | components/PreferenceForm.tsx:30 | definition of `value.join(', ')`. Its inverse on well-formed lists is stated by `DisplayParseRoundTrip` |
| PreferenceForm.HandleTextArrayChange | components/PreferenceForm.tsx:49-51 | definition of the text handler. Its effect is stated by `TextChangeOnlyTouchesField` |
| PreferenceForm.ToggleFocus | components/PreferenceForm.tsx:55-57 | after a click, the key is in the focus list iff it was not before |
| PreferenceForm.HandleNutritionalFocusChange | components/PreferenceForm.tsx:53-60 | definition of the checkbox handler. Its effect is stated by `FocusToggleOnlyTouchesFocus` and `ToggleFocusEffect` |
| PreferenceForm.Step | components/PreferenceForm.tsx:45-65 | definition of the form's reaction to one event. It is characterised by `SubmitPassesPreferences` and `StepKeepsFocusWellFormed` |
| PreferenceForm.ParseListItems | components/PreferenceForm.tsx:50 | every element of a parsed text field is non-empty, trimmed and comma-free |
| PreferenceForm.ParseListAtComma | components/PreferenceForm.tsx:50 | parsing goes piece by piece from the first comma: the trimmed first piece, unless it is empty, then the parse of the rest |
| PreferenceForm.ParseListNoComma | components/PreferenceForm.tsx:50 | text without a comma parses to its trimmed self, or to nothing when that is empty |
| PreferenceForm.ParseListCons | components/PreferenceForm.tsx:50 | trimming and filtering handle the pieces one at a time, in order |
| PreferenceForm.PiecesGiveItems | components/PreferenceForm.tsx:50 | comma-free pieces, trimmed and filtered, are all well-formed list items |
| PreferenceForm.ParseListPaddedDisplay | components/PreferenceForm.tsx:30-50 | the displayed join, with any leading whitespace, parses back to the list |
| PreferenceForm.DisplayParseRoundTrip | components/PreferenceForm.tsx:30-50 | parsing the `join(', ')` display gives back every list of non-empty, trimmed, comma-free items |
| PreferenceForm.ParseDisplayParse | components/PreferenceForm.tsx:30-50 | displaying a parsed value and parsing it again changes nothing |
| PreferenceForm.TextChangeOnlyTouchesField | components/PreferenceForm.tsx:49-51 | a text change sets the named field to the parse of the text and leaves the other four fields unchanged |
| PreferenceForm.ToggleFocusEffect | components/PreferenceForm.tsx:55-57 | a present key is removed entirely, with all other keys kept. An absent key is appended at the end |
| PreferenceForm.ToggleTwiceRestores | components/PreferenceForm.tsx:55-57 | toggling an absent key twice restores the original list |
| PreferenceForm.FocusToggleOnlyTouchesFocus | components/PreferenceForm.tsx:53-60 | a checkbox click changes only `nutritionalFocus` |
| PreferenceForm.ToggleKeepsFocusWellFormed | components/PreferenceForm.tsx:55-57 | clicking a vocabulary key keeps the focus list duplicate-free and within the vocabulary |
| PreferenceForm.DefaultFocusWellFormed | constants.ts:19 | the default focus list is duplicate-free and within the vocabulary |
| PreferenceForm.SubmitPassesPreferences | components/PreferenceForm.tsx:62-65 | submission hands the current preferences to `onSubmit` unchanged and leaves the state alone. No other event submits anything |
| PreferenceForm.StepKeepsFocusWellFormed | components/PreferenceForm.tsx:45-65 | any user event, or new initial preferences that are well-formed, keeps the focus list well-formed |
| PreferenceForm.RunKeepsFocusWellFormed | components/PreferenceForm.tsx:45-65 | so does any sequence of such events |
| Types.WithField | components/PreferenceForm.tsx:50 | the spread `{ ...prev, [field]: v }` sets the named field and keeps the others |
| Lists.Remove | components/PreferenceForm.tsx:56 | `filter(f => f !== x)` removes every occurrence of `x`, keeps every other element and never grows the list |
| Lists.RemoveAbsent | components/PreferenceForm.tsx:56 | filtering out an absent value leaves the list as it is |
| Lists.RemoveAppend | components/PreferenceForm.tsx:56 | the filter works element by element over concatenation |
| Lists.RemoveDistinct | components/PreferenceForm.tsx:56 | the filter keeps a duplicate-free list duplicate-free |
| Constants.FocusVocabulary | constants.ts:4-14 | there are exactly nine focus keys, pairwise distinct |
| Constants.DefaultPreferencesShape | constants.ts:16-22 | the default focus keys come from the vocabulary without repetition, and the four other default lists are empty |
| Constants.ModelsDiffer | constants.ts:1-2 | the text-model and image-model identifiers differ |
| I18n.Placeholder | src/i18n/index.ts:9 | the pattern for a parameter name is the name in braces |
| I18n.ApplyParams | src/i18n/index.ts:7-11 | the `forEach` loop leaves exactly the interpolation of all parameters in order |
| I18n.EnglishLookup | src/i18n/index.ts:6 | the key itself comes back iff the English table lacks it, holds an empty string for it, or holds the key. Otherwise the English string comes back |
| I18n.GetEnglishTranslation | src/i18n/index.ts:5-13 | returns the English lookup with parameters interpolated. Only the English table is consulted, whatever the active locale |
| I18n.InterpolateNoParams | src/i18n/index.ts:7 | with no parameters, or an empty set of them, the looked-up string is returned unchanged |
| I18n.SubstituteWithoutPlaceholders | src/i18n/index.ts:8-10 | a string with no `{` is left unchanged by any parameters |
| I18n.SubstituteOne | src/i18n/index.ts:8-10 | one parameter replaces every occurrence of its placeholder with its value |
| I18n.Substitute | src/i18n/index.ts:8-10 | definition of the `forEach` over the parameters, one global replace each. Its meaning is stated by `SubstituteOne` and `SubstituteWithoutPlaceholders` |
| I18n.Interpolate | src/i18n/index.ts:7-11 | definition of `if (params)`. It is stated by `InterpolateNoParams` |
| I18n.EnglishTranslation | src/i18n/index.ts:5-13 | definition of `getEnglishTranslation` as a value. `GetEnglishTranslation` is proved equal to it |
| LanguageContext.Lookup | src/contexts/LanguageContext.tsx:68-76 | the current-locale string when defined, else the English string when defined, else the key |
| LanguageContext.Translate | src/contexts/LanguageContext.tsx:67-84 | definition of `t` as a value: lookup, then interpolation. `LanguageProvider.T` is proved equal to it |
| LanguageContext.InitialLanguage | src/contexts/LanguageContext.tsx:22-27 | the stored non-empty locale when a window exists, and `'en'` otherwise |
| LanguageContext.Normalise | src/contexts/LanguageContext.tsx:57-58 | the result always has a table, and it equals the request iff the request has one |
| LanguageContext.LanguageProvider.constructor | src/contexts/LanguageContext.tsx:34-39 | the initial language comes from storage, unnormalised, with the table for it |
| LanguageContext.LanguageProvider.MountSync | src/contexts/LanguageContext.tsx:43-54 | after mounting, the language is the normalised stored locale with its table, and storage is untouched |
| LanguageContext.LanguageProvider.SetLanguage | src/contexts/LanguageContext.tsx:56-65 | the language becomes the normalised request with its table. With a window, storage records that language, and otherwise storage is unchanged |
| LanguageContext.LanguageProvider.T | src/contexts/LanguageContext.tsx:67-84 | returns the three-tier lookup in the active table, with parameters interpolated |
| LanguageContext.LookupVersusEnglishLookup | src/contexts/LanguageContext.tsx:68-76 | `t` and `getEnglishTranslation` agree on the English table except on an empty string, which `t` keeps and `getEnglishTranslation` replaces by the key |
| LanguageContext.PersistedLocaleRestored | src/contexts/LanguageContext.tsx:22-27 | a locale stored by `setLanguage` is the one read back on the next load |
| LanguageContext.UnknownStoredLocaleIsEnglish | src/contexts/LanguageContext.tsx:44-50 | a missing or unknown stored locale syncs to `'en'` |
| RecipeDisplay.NutrientTranslationKey | components/RecipeDisplay.tsx:20-26 | `"nutrient_"` followed by the key lower-cased character by character |
| RecipeDisplay.TranslationKeyIgnoresCase | components/RecipeDisplay.tsx:21 | two nutrient keys share a translation key iff they agree after lower-casing |
| RecipeDisplay.SpaceBeforeCaps | components/RecipeDisplay.tsx:69 | inserting spaces before capitals never shortens the key |
| RecipeDisplay.SpaceBeforeCapsNoCaps | components/RecipeDisplay.tsx:69 | a key without capitals is unchanged |
| RecipeDisplay.CapitalsFollowSpaces | components/RecipeDisplay.tsx:69 | every capital in the result is preceded by a space |
| RecipeDisplay.SpaceBeforeCapsOnlyAddsSpaces | components/RecipeDisplay.tsx:69 | apart from spaces, the result has the same characters in the same order |
| RecipeDisplay.SpaceBeforeCapsAppend | components/RecipeDisplay.tsx:69 | the global replace works piece by piece |
| RecipeDisplay.CapitalisedWordSpaced | components/RecipeDisplay.tsx:69 | a capitalised word is preceded by one space |
| RecipeDisplay.Capitalize | components/RecipeDisplay.tsx:69 | `/^./` upper-cases the first character unless it is a line terminator, and leaves the rest alone |
| RecipeDisplay.CapitalizeIdempotent | components/RecipeDisplay.tsx:69 | capitalising twice is capitalising once |
| RecipeDisplay.CapitalizeLower | components/RecipeDisplay.tsx:69 | a leading lower-case letter becomes its capital |
| RecipeDisplay.CamelCaseLabel | components/RecipeDisplay.tsx:69 | a two-word camel-case key becomes its capitalised first word, a space, and its second word |
| RecipeDisplay.VitaminDLabel | components/RecipeDisplay.tsx:69 | "vitaminD" becomes "Vitamin D" |
| RecipeDisplay.LeadingCapitalGivesLeadingSpace | components/RecipeDisplay.tsx:69 | a key that already starts with a capital gets a leading space, because spacing runs before capitalising |
| RecipeDisplay.FallbackLabel | components/RecipeDisplay.tsx:69 | the spaced and capitalised key is never shorter than the key. Its exact form is stated by `CamelCaseLabel`, `VitaminDLabel` and `CapitalsFollowSpaces` |
| RecipeDisplay.NutrientLabel | components/RecipeDisplay.tsx:66-70 | definition of the label choice. Its two cases are stated by `NutrientLabelTranslated` and `NutrientLabelFallback` |
| RecipeDisplay.NutrientLabelTranslated | components/RecipeDisplay.tsx:66-68 | a nutrient with its own translation is labelled by it |
| RecipeDisplay.MissingKeyEchoed | src/contexts/LanguageContext.tsx:74-76 | a key missing from both tables comes back unchanged, which is what the fallback test detects |
| RecipeDisplay.DefaultFormatFilled | components/RecipeDisplay.tsx:69 | the default format has every `{key}` replaced by the given value |
| RecipeDisplay.NutrientLabelFallback | components/RecipeDisplay.tsx:66-70 | a nutrient without a translation is labelled by the default format, with every `{key}` replaced by the spaced and capitalised key |
| RecipeDisplay.VitaminDFallback | components/RecipeDisplay.tsx:66-70 | with the format "{key}", an untranslated "vitaminD" is labelled "Vitamin D" |
| RecipeDisplay.NutrientLines | components/RecipeDisplay.tsx:64-76 | at most one line per entry, and no line shows an empty value |
| RecipeDisplay.NutrientLinesAppend | components/RecipeDisplay.tsx:64 | the lines are produced entry by entry in `Object.entries` order |
| RecipeDisplay.FalsyNutrientSkipped | components/RecipeDisplay.tsx:65 | an absent or empty value contributes no line, wherever it stands |
| RecipeDisplay.TruthyNutrientsAllShown | components/RecipeDisplay.tsx:64-76 | when every value is non-empty, there is one line per entry, in order, with its label and value |
| RecipeDisplay.ImageAreaElements | components/RecipeDisplay.tsx:37-51 | exactly one element: the spinner iff loading, the meal image iff not loading and an image exists (with the image and the meal name as its text), and the placeholder otherwise |
| RecipeDisplay.QuickInfo | components/RecipeDisplay.tsx:54-57 | preparation and cooking time, in that order, and the serving suggestion as a third line iff it is truthy |
| RecipeDisplay.Render | components/RecipeDisplay.tsx:15-99 | a missing recipe renders only the 'noRecipeAvailable' message. Otherwise the card has the meal name, the image area and the quick info. It has a nutrition list iff there is nutritional information, and that list is the nutrient lines of the entries under the active labels. It has one line per ingredient and per instruction, in input order |
| RecipeDisplay.RenderedNutritionAllShown | components/RecipeDisplay.tsx:60-79 | on the card, a nutrition object with only non-empty values shows one line per entry, in order, each with its nutrient label and value |
| RecipeDisplay.RenderedNutritionSkipsFalsy | components/RecipeDisplay.tsx:64-65 | on the card, an entry with an absent or empty value adds no line, wherever it stands |
| ImageUploader.Base64Payload | components/ImageUploader.tsx:93 | the payload is the comma-free piece after the first comma |
| ImageUploader.PayloadIffComma | components/ImageUploader.tsx:93 | there is a payload iff the data URL contains a comma. Without one, `[1]` is `undefined` |
| ImageUploader.PayloadAfterFirstComma | components/ImageUploader.tsx:93 | the payload is the text after the first comma, up to the next comma if there is one |
| ImageUploader.MealImagePayload | services/geminiService.ts:209 | a JPEG data URL built by the image call yields its bytes back as the payload |
| ImageUploader.SurfacedError | components/ImageUploader.tsx:99-101 | a message mentioning "API key" becomes the generic translated message. Any other non-empty message is shown as is, and an empty one becomes the generic message |
| ImageUploader.ServiceFailureShowsGenericMessage | components/ImageUploader.tsx:99-101 | the analysis service's own failure message is always shown as the generic translated message |
| ImageUploader.SizeGateBoundary | components/ImageUploader.tsx:26 | a file of exactly 4 MiB is accepted, and one byte more is refused |
| ImageUploader.WithinSizeLimit | components/ImageUploader.tsx:26 | definition of the size gate. Its boundary is stated by `SizeGateBoundary` |
| ImageUploader.Uploader.CanAnalyze | components/ImageUploader.tsx:149 | definition of the analyse button's enabled state: an image is selected and no analysis is running |
| ImageUploader.Uploader.constructor | components/ImageUploader.tsx:14-17 | no image, not loading, no error, camera closed, nothing reported |
| ImageUploader.Uploader.HandleFileChange | components/ImageUploader.tsx:22-38 | the error is cleared. An oversized file sets 'imageSizeError', clears the image and is not read. An acceptable file starts a read and closes the camera. No file changes nothing else |
| ImageUploader.Uploader.FileLoaded | components/ImageUploader.tsx:32-34 | the finished read becomes the selected image, and nothing else changes |
| ImageUploader.Uploader.BeginStartCamera | components/ImageUploader.tsx:40-58 | up to the `await`: the error and the image are cleared and the camera opens. Without media support the camera closes again with 'cameraNotSupportedError' and nothing is requested. With support `getUserMedia` is requested, and while it is pending the camera is open with no error |
| ImageUploader.Uploader.FinishStartCamera | components/ImageUploader.tsx:46-54 | after the `await`: a refusal shows 'cameraAccessError' and closes the camera. A grant changes nothing else |
| ImageUploader.Uploader.StartCamera | components/ImageUploader.tsx:40-59 | the whole handler composed of the two halves: the image is cleared. The camera stays open iff media are supported and access is granted. Otherwise the matching error is shown |
| ImageUploader.Uploader.StopCamera | components/ImageUploader.tsx:61-68 | the camera closes, and nothing else changes |
| ImageUploader.Uploader.HandleCapture | components/ImageUploader.tsx:70-83 | the error is cleared. With video and canvas mounted, the frame becomes the selected image and the camera closes |
| ImageUploader.Uploader.BeginAnalyze | components/ImageUploader.tsx:85-93 | without an image, 'selectOrCaptureError' is set and no call is made. Otherwise loading starts, the error is cleared and the payload is sent |
| ImageUploader.Uploader.FinishAnalyze | components/ImageUploader.tsx:94-104 | success reports the ingredients. Failure shows the surfaced message and reports the same message. Loading ends either way |
| ImageUploader.Uploader.HandleAnalyze | components/ImageUploader.tsx:85-105 | the whole handler: the guard, one call with the payload after the first comma, the report of success or of the surfaced error, and loading off at the end |
| JsString.Trim | services/geminiService.ts:15 | the result neither starts nor ends with whitespace |
| JsString.TrimStart | services/geminiService.ts:15 | removes exactly the leading whitespace |
| JsString.TrimEnd | services/geminiService.ts:15 | removes exactly the trailing whitespace |
| JsString.TrimPadded | components/PreferenceForm.tsx:50 | trimming removes whitespace padding and keeps a trimmed core |
| JsString.TrimIdempotent | services/geminiService.ts:19 | trimming twice is trimming once |
| JsString.Split | components/PreferenceForm.tsx:50 | `split(',')` always yields at least one piece, and no piece holds the separator |
| JsString.JoinSplit | components/PreferenceForm.tsx:50 | joining the pieces with the separator gives back the text |
| JsString.SplitJoin | components/PreferenceForm.tsx:30-50 | splitting a join of separator-free pieces gives back the pieces |
| JsString.Join | components/PreferenceForm.tsx:30 | definition of `Array.prototype.join`. It is characterised by `JoinSplit`, `SplitJoin` and `JoinEmpty` |
| JsString.IndexOf | services/geminiService.ts:25 | the first occurrence, or -1 exactly when there is none |
| JsString.LastIndexOf | services/geminiService.ts:26 | the last occurrence, or -1 exactly when there is none |
| JsString.Substring | services/geminiService.ts:29 | with bounds inside the string, `substring` takes the text between them, in either order |
| JsString.ReplaceAllJoin | src/contexts/LanguageContext.tsx:80 | a global literal replace exchanges every occurrence of the pattern for the replacement |
| JsString.ReplaceAll | src/contexts/LanguageContext.tsx:80 | definition of a global replace of a literal pattern, scanning left to right. It is characterised by `ReplaceAllJoin` and `ReplaceAllAbsent` |
| JsString.ToLower | components/RecipeDisplay.tsx:21 | lower-cases character by character |

## Left out

- The Gemini SDK, the network and client construction (`services/geminiService.ts:1-12`) are left out. Each service call is a function parameter from the request record to a `Result`. Whether the API key is set in the environment is not modelled.
- `JSON.parse` is a partial function parameter. Its grammar and values are not modelled. In the service calls, a falsy parsed value is treated as a value rather than as `null`, so `|| []` only covers `null`.
- JSON of the wrong shape is not modelled. In the source, `JSON.parse(...) as T` is an unchecked cast, so a reply like `{"a":1}` to the ingredient request is returned as is by the strict attempt. In the model, `parse` is typed (a list of strings, meals, or a recipe). It must either reject such text, sending the extractor on to the span attempts, or produce a value of the expected type.
- The fence regular expression `/^```(\w*)?\s*\n?(.*?)\n?\s*```$/s` is re-derived by hand, not given a regex semantics. The same goes for the camel-case replace `/([A-Z])/g` and `/^./`.
- Placeholder substitution treats `{name}` as a literal pattern. A parameter name holding regular-expression metacharacters is not modelled, nor are `$` patterns in replacement values. Parameter values are strings, so `String(number)` is left out.
- Key order in `Object.keys` and `Object.entries` is a sequence the caller supplies. Prototype-inherited keys of the translation tables are not modelled.
- Strings are sequences of Dafny characters, not UTF-16 code units. `toLowerCase` and `toUpperCase` are modelled for ASCII letters only.
- The contents of the English and Thai locale files are not modelled. The tables are parameters, with Thai given as a second table.
- `console.error` logging is left out.
- Asynchrony is modelled only in part.
  - Each awaited call is split into the method before it and the method after it. `BeginAnalyze` and `FinishAnalyze` are composed by `HandleAnalyze`, and `BeginStartCamera` and `FinishStartCamera` by `StartCamera`. The state between the two halves is a state of the model, such as the open camera with no error while the browser's permission prompt is up.
  - `FileReader` completion is the separate `FileLoaded` call.
  - Interleaved events, cancellation and React's batching of state updates are not modelled.
- The camera stream, its tracks, the `videoRef.current.srcObject` assignment and the canvas drawing are left out. `BeginStartCamera`, `FinishStartCamera`, `StartCamera` and `HandleCapture` take the browser's answers as booleans and the captured data URL as a string.
- Markup, headings, styling and the presentation components (`Header`, `MealCard`, `Section`, `Button`, `LoadingSpinner`) are left out. In `ImageUploader.tsx`, apart from the analyse button's enabled state (`Uploader.CanAnalyze`, line 149), the render section (lines 107-155) is also left out.
- The prompt templates in `PromptText` are text constants copied character for character, whitespace included, from the template literals at `services/geminiService.ts:61-66`, `:94-121`, `:144-181` and `:202`. The model proves nothing about what the wording asks of the model service.
- `RecipeDisplay.SpaceBeforeCaps`: its contract states only that the key does not shrink. What the function does is stated by `CapitalsFollowSpaces`, `SpaceBeforeCapsOnlyAddsSpaces` and `SpaceBeforeCapsNoCaps`.
- `RecipeDisplay.NutrientLines`: its contract bounds the output and excludes empty values. The exact lines are stated by `FalsyNutrientSkipped` and `TruthyNutrientsAllShown`, and on the rendered card by `RenderedNutritionAllShown` and `RenderedNutritionSkipsFalsy`.
- `RecipeDisplay.DropSpaces` and `RecipeDisplay.DropSpacesAppend` are specification helpers with no counterpart in the source. They exist only to state `SpaceBeforeCapsOnlyAddsSpaces`.
- PreferenceForm.FilterNonEmpty: its own contract states only the bound and that no entry is empty. That it keeps exactly the non-empty entries, in order, is stated by `FilterNonEmptyMembers`, `FilterNonEmptyCons` and `FilterNonEmptyAppend`. They are lemmas because a membership clause on the function itself slows every proof that uses it.
