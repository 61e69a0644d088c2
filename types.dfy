/** The record shapes the application passes around (types.ts). */
module Types {
  import opened Wrappers

  /** A locale code. The application names two ('en' and 'th'), but a value read back
      from local storage may be any string. */
  type Locale = string

  datatype UserPreferences = UserPreferences(
    healthConditions: seq<string>,
    allergies: seq<string>,
    nutritionalFocus: seq<string>,
    likedFoods: seq<string>,
    dislikedFoods: seq<string>)

  /** `keyof UserPreferences`: the field a form input edits. */
  datatype PreferenceField = HealthConditions | Allergies | NutritionalFocus | LikedFoods | DislikedFoods

  datatype Meal = Meal(name: string, description: string, mainIngredients: seq<string>)

  datatype RecipeIngredient = RecipeIngredient(name: string, quantity: string)

  /** `nutritionalInfo` is kept as its entries in `Object.entries` order; an entry's value
      may be `undefined`, and a response may omit the whole object (`None`). */
  datatype Recipe = Recipe(
    mealName: string,
    ingredients: seq<RecipeIngredient>,
    instructions: seq<string>,
    prepTime: string,
    cookTime: string,
    nutritionalInfo: Option<seq<(string, Option<string>)>>,
    servingSuggestion: Option<string>,
    imageUrl: Option<string>)

  datatype AppView = UploadView | PreferencesView | MealsView | RecipeView | ErrorView

  /** JavaScript truthiness of an optional string: present and non-empty. */
  predicate Truthy(s: Option<string>) {
    s.Some? && s.value != ""
  }

  function Field(p: UserPreferences, f: PreferenceField): seq<string> {
    match f
    case HealthConditions => p.healthConditions
    case Allergies => p.allergies
    case NutritionalFocus => p.nutritionalFocus
    case LikedFoods => p.likedFoods
    case DislikedFoods => p.dislikedFoods
  }

  /** `{ ...p, [f]: v }` */
  function WithField(p: UserPreferences, f: PreferenceField, v: seq<string>): (r: UserPreferences)
    ensures Field(r, f) == v
    ensures forall g :: g != f ==> Field(r, g) == Field(p, g)
  {
    match f
    case HealthConditions => p.(healthConditions := v)
    case Allergies => p.(allergies := v)
    case NutritionalFocus => p.(nutritionalFocus := v)
    case LikedFoods => p.(likedFoods := v)
    case DislikedFoods => p.(dislikedFoods := v)
  }
}
