/** Model identifiers, the nutritional-focus vocabulary and the default preferences
    (constants.ts). */
module Constants {
  import opened Types
  import opened Lists

  const GeminiTextModel: string := "gemini-2.5-flash-preview-04-17"
  const GeminiImageGenModel: string := "imagen-3.0-generate-002"

  /** The fixed vocabulary of nutritional-focus keys, in display order. */
  const NutritionalFocusKeys: seq<string> := [
    "calciumRich",
    "vitaminDBoost",
    "highProtein",
    "highFiber",
    "lowSodium",
    "easyToChew",
    "easyToDigest",
    "heartHealthy",
    "bloodSugarControl"
  ]

  const DefaultUserPreferences: UserPreferences := UserPreferences(
    healthConditions := [],
    allergies := [],
    nutritionalFocus := ["easyToChew", "highProtein"],
    likedFoods := [],
    dislikedFoods := [])

  /** The vocabulary has nine keys and no key twice. */
  lemma FocusVocabulary()
    ensures |NutritionalFocusKeys| == 9
    ensures Distinct(NutritionalFocusKeys)
  {
  }

  /** The default focus is drawn from the vocabulary, without repetition; every
      free-text default list is empty. */
  lemma DefaultPreferencesShape()
    ensures forall k :: k in DefaultUserPreferences.nutritionalFocus ==> k in NutritionalFocusKeys
    ensures Distinct(DefaultUserPreferences.nutritionalFocus)
    ensures DefaultUserPreferences.healthConditions == [] && DefaultUserPreferences.allergies == []
    ensures DefaultUserPreferences.likedFoods == [] && DefaultUserPreferences.dislikedFoods == []
  {
    assert NutritionalFocusKeys[5] == "easyToChew" && NutritionalFocusKeys[2] == "highProtein";
  }

  /** Text tasks and image synthesis use different models. */
  lemma ModelsDiffer()
    ensures GeminiTextModel != GeminiImageGenModel
  {
    assert GeminiTextModel[0] != GeminiImageGenModel[0];
  }
}
