/** The fixed text of the three prompt templates of services/geminiService.ts, split
    at their `${...}` slots (whitespace as in the template literals), and the three
    Thai output-language directives. */
module PromptText {

  // analyzeRefrigeratorImage: the text part, around `${languageInstruction}`
  const AnalyzeTemplate0: string := "Analyze this image of an opened refrigerator. List all clearly identifiable edible food ingredients. \n             Prioritize common food items. Return the list as a JSON array of strings. For example: [\"eggs\", \"milk\", \"carrots\"]. \n             "
  const AnalyzeTemplate1: string := "\n             If no ingredients are clearly identifiable or the image is not a refrigerator, return an empty array."

  // generatePersonalizedMenu: around the ingredients, the five preference slots and `${languageInstruction}`
  const MenuTemplate0: string := "\n      You are an AI personal nutritionist for elderly individuals.\n      Available ingredients: "
  const MenuTemplate1: string := ".\n      User preferences:\n      - Health conditions: "
  const MenuTemplate2: string := "\n      - Dietary restrictions (cannot eat): "
  const MenuTemplate3: string := "\n      - Nutritional focus for elderly: Emphasize "
  const MenuTemplate4: string := ". Ensure meals are easy to digest and chew.\n      - Liked foods: "
  const MenuTemplate5: string := "\n      - Disliked foods: "
  const MenuTemplate6: string := "\n\n      Based on the available ingredients and these preferences, suggest 2-3 simple, healthy, and appealing meal options suitable for an elderly person.\n      For each meal, provide:\n      1. A short, descriptive name.\n      2. A brief description (1-2 sentences) highlighting why it's suitable for the elderly user.\n      3. A list of main ingredients used from the available ones (or common staples if specific ones aren't listed as available).\n\n      Return the suggestions as a JSON array of objects. Each object must have 'name' (string), 'description' (string), and 'mainIngredients' (array of strings) keys.\n      "
  const MenuTemplate7: string := "\n      Example (if English):\n      [\n        {\n          \"name\": \"Baked Salmon with Steamed Asparagus\",\n          \"description\": \"A heart-healthy meal rich in omega-3s and vitamins. Salmon is soft and easy to eat.\",\n          \"mainIngredients\": [\"salmon fillet\", \"asparagus\", \"lemon\", \"olive oil\"]\n        }\n      ]\n      If no suitable meals can be created, return an empty array. Ensure the output is valid JSON.\n    "

  // generateRecipe: around the meal name, the ingredients and `${languageInstruction}`
  const RecipeTemplate0: string := "\n      You are an AI cooking assistant specialized in recipes for elderly individuals.\n      Generate a simple, step-by-step recipe for \""
  const RecipeTemplate1: string := "\".\n      Assume the user has the following main ingredients available: "
  const RecipeTemplate2: string := ". \n      List any other common pantry staples needed (e.g., salt, pepper, oil, small amounts of herbs) if necessary.\n      The instructions should be very clear, concise, and easy for an elderly person to follow. Use simple language and short sentences.\n      Break down steps into small, manageable actions.\n      \n      Provide estimated preparation time, cooking time, and key nutritional information. \n      For nutritional information, focus on: calories (approx.), protein (approx.), fiber (approx.), calcium (approx.), vitamin D (approx.), and sodium (approx.).\n      If a nutrient is not significant, you can omit it or state 'low'.\n\n      "
  const RecipeTemplate3: string := "\n\n      Return the result as a JSON object with the following structure:\n      {\n        \"mealName\": \"Name of the Meal\",\n        \"ingredients\": [\n          { \"name\": \"Ingredient Name\", \"quantity\": \"e.g., 1 cup, 200g, 1 tbsp, to taste\" }\n        ],\n        \"instructions\": [\n          \"Step 1: ...\",\n          \"Step 2: ...\"\n        ],\n        \"prepTime\": \"e.g., 15 minutes\",\n        \"cookTime\": \"e.g., 20 minutes\",\n        \"nutritionalInfo\": {\n          \"calories\": \"approx. XXX kcal\",\n          \"protein\": \"approx. XXg\",\n          \"fiber\": \"approx. Xg\",\n          \"calcium\": \"approx. XXmg\",\n          \"vitaminD\": \"approx. Xmcg (or IU)\",\n          \"sodium\": \"approx. XXmg\"\n        },\n        \"servingSuggestion\": \"Optional: A brief suggestion on how to serve the meal or variations.\"\n      }\n      Ensure the entire output is a single, valid JSON object.\n    "

  // The Thai directives, one per text prompt
  const AnalyzeThaiDirective: string := "The strings in the array should be in Thai. (สตริงในอาร์เรย์ควรเป็นภาษาไทย)"
  const MenuThaiDirective: string := "All user-facing string values in the JSON (like 'name', 'description', and items in 'mainIngredients') should be in Thai. (ค่าสตริงที่ผู้ใช้เห็นทั้งหมดใน JSON เช่น 'name', 'description', และรายการใน 'mainIngredients' ควรเป็นภาษาไทย)"
  const RecipeThaiDirective: string := "All user-facing string values in the JSON (like 'mealName', ingredient 'name's, 'instructions', 'servingSuggestion') should be in Thai. Nutritional information keys and values can remain standard. (ค่าสตริงที่ผู้ใช้เห็นทั้งหมดใน JSON เช่น 'mealName', ชื่อส่วนผสม, 'instructions', 'servingSuggestion' ควรเป็นภาษาไทย คีย์และค่าข้อมูลโภชนาการสามารถคงไว้ตามมาตรฐานได้)"
}
