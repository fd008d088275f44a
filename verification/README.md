# wardrobe.ai — a Dafny model of its stateful core

wardrobe.ai is a wardrobe-management web application: users catalogue
clothing items, ask a language model for outfit suggestions, save outfits to
a history, and record style and color preferences. Most of it is HTTP and UI
glue. This project models the parts that hold sequential logic:

- **The in-memory repository** (`MemStorage`, module `Storage`): two
  insertion-ordered maps from id to record (clothing items, outfits), the
  optional preferences singleton, and one id counter per entity kind. A
  JavaScript `Map` is modelled faithfully as an insertion-ordered list of
  entries (module `OrderedMap`), so the order `Array.from(map.values())`
  returns is part of the model. The invariant `Storage.Valid` says that keys
  increase strictly in insertion order, lie below their counter, and equal
  the stored record's id, and that the preferences record carries id 1.
  Every state reachable from the constructor is valid.
- **The weather-code classifier** (module `Weather`): an OpenWeather
  condition code mapped to `sunny`/`cloudy`/`rainy`/`snowy` by integer
  ranges, and the copying of description and location into the app's record.
- **The history page's id resolution** (module `History`): an outfit's item
  ids are looked up one by one in the wardrobe list (first match wins), and
  ids with no match are dropped.
- **The home page's suggestion filter and save payload** (module `Home`): the
  wardrobe filtered by membership of the suggested ids, in wardrobe order.
- **The settings page** (module `Settings`): the five style and five color
  options, the checkbox toggles (check appends, uncheck filters out every
  occurrence), the form defaults and the form's enum validation.

Records follow the field lists of the shared schema (module `Schema`); the
`type` column of a clothing item is called `itemType`, because `type` is a
Dafny keyword. Each storage operation is a function from the state before the
call to the state after it, paired with its return value; the clock reading
that `createOutfit` takes from `new Date()` is a parameter.

`MemStorage.updatePreferences` overwrites the single `preferences` field
with `{ ...prefs, id }`, where `id` is the never-incremented `currentPrefId`
(1); the model does the same.

## Model

| member | source | states |
|---|---|---|
| OrderedMap.Get | server/storage.ts:44 | a lookup is undefined exactly when no entry has the key; a found value is stored under that key; with distinct keys it is the value stored there |
| OrderedMap.Set | server/storage.ts:50 | after `set(k, v)` the key reads `v`, every other key reads as before; a new key is appended at the end of the iteration order, a present key keeps its place; keys stay distinct |
| OrderedMap.Delete | server/storage.ts:55 | deleting an absent key changes nothing; otherwise exactly one entry goes, the entries with other keys remain in their insertion order, the key reads undefined and every other key reads as before |
| Schema.WithItemId | server/storage.ts:49 | `{ ...item, id }` carries the given id and gives back every submitted field unchanged |
| Schema.WithOutfitId | server/storage.ts:64-68 | the spread outfit carries the id and creation time and every submitted field unchanged |
| Schema.WithPreferencesId | server/storage.ts:79 | the spread preferences carry the id and both submitted lists unchanged |
| Storage.Init | server/storage.ts:31-37 | a new repository is valid, lists no items and no outfits, has undefined preferences, and all three counters at 1 |
| Storage.GetClothingItem | server/storage.ts:43-45 | undefined exactly when no entry has that id; in a valid state a found item has that id and the id lies below the item counter |
| Storage.GetClothingItems | server/storage.ts:39-41 | one listed item per stored entry; in a valid state the listing holds an item exactly when looking up its id returns it, in strictly increasing id order (creation order) |
| Storage.CreateClothingItem | server/storage.ts:47-52 | the new item's id is the counter before the call, its other fields are the input's, the counter advances by one, the item is stored under its id, every other id reads as before, outfits and preferences are untouched |
| Storage.CreateClothingItemValid | server/storage.ts:47-51 | in a valid state the assigned id was not present, the item is appended at the end of the listing, and the invariant holds afterwards |
| Storage.DeleteClothingItem | server/storage.ts:54-56 | only the item map changes (the counter is untouched); deleting an absent id is a no-op; the remaining entries are exactly the old ones with another key |
| Storage.DeleteClothingItemValid | server/storage.ts:54-56 | in a valid state the id reads undefined afterwards, every other id reads as before, a listed item stays listed exactly when its id differs, and the invariant holds |
| Storage.GetOutfits | server/storage.ts:58-60 | one listed outfit per stored entry; in a valid state the listing holds an outfit exactly when it is stored under its id, in strictly increasing id order |
| Storage.CreateOutfit | server/storage.ts:62-71 | the outfit gets the outfit counter's value and the given creation time, keeps the input's fields, advances only the outfit counter, and leaves the items, the item counter and the preferences untouched |
| Storage.CreateOutfitValid | server/storage.ts:62-70 | in a valid state the outfit id was not present, the outfit is listed last, and the invariant holds afterwards |
| Storage.GetPreferences | server/storage.ts:73-75 | in a valid state a defined preferences record has id 1 |
| Storage.UpdatePreferences | server/storage.ts:77-81 | the singleton is replaced wholesale by the input under id `currentPrefId` (1 in any valid state), and nothing else changes |
| Storage.UpdatePreferencesIdempotent | server/storage.ts:77-81 | updating twice with the same input gives the same state and result as updating once |
| Storage.RunPreservesValid | server/storage.ts:31-81 | every sequence of create, delete and update calls from a valid state (hence from the constructor) ends in a valid state: every stored key is below its counter |
| Storage.CountersNeverDecrease | server/storage.ts:27-36 | no sequence of calls moves the item or outfit counter backwards, and the preferences id never changes |
| Storage.IdsNeverReused | server/storage.ts:47-56 | after an item is created, whatever follows (its deletion included), a later created item gets a strictly larger id |
| Storage.OutfitIdsNeverReused | server/storage.ts:62-71 | after an outfit is created, any later created outfit gets a strictly larger id |
| Storage.PreferencesUndefinedUntilUpdate | server/storage.ts:73-81 | after a sequence of calls the preferences are undefined exactly when they were undefined before and none of the calls was an update |
| Storage.CreateThenListThenDelete | server/storage.ts:39-56 | a created item is listed with the id the counter held, and deleting it removes it from the listing, which is then the listing from before the creation |
| Weather.Parse | client/src/lib/weather.ts:5 | the schema enum accepts a string exactly when it is the name of one of the four weather values, and returns that value |
| Weather.ParseName | client/src/lib/weather.ts:5 | each of the four weather values survives printing and re-validation |
| Weather.Classify | client/src/lib/weather.ts:14-25 | every integer code maps to one value: rainy exactly on [200, 600), snowy exactly on [600, 700), cloudy exactly from 801 up, sunny exactly below 200 and on [700, 800] (800 included) |
| Weather.ClassifyAgreesWithGroups | client/src/lib/weather.ts:17-24 | on the OpenWeather condition groups the classifier shows thunderstorm, drizzle and rain as rainy, snow as snowy, atmosphere and clear sky as sunny, clouds as cloudy; 4xx codes read as rainy, codes below 200 as sunny, and codes of 805 and above as cloudy |
| Weather.MapOpenWeather | client/src/lib/weather.ts:12-32 | fails exactly when the response's `weather` array is empty (where the source throws); otherwise the record's weather is the first condition's classification and its description and location are copied unchanged |
| Weather.MapOpenWeatherValid | client/src/lib/weather.ts:14-31 | a produced record always passes the schema's enum check, and conditions after the first do not affect it |
| History.Find | client/src/pages/history.tsx:21 | undefined exactly when no wardrobe item has the id; otherwise an item with that id from the wardrobe, and when several share the id, the first in list order |
| History.Present | client/src/pages/history.tsx:22 | never grows the list, and keeps every value in order when all lookups are defined |
| History.PresentMembers | client/src/pages/history.tsx:22 | every kept item is a defined lookup, and every defined lookup is kept |
| History.PresentAppend | client/src/pages/history.tsx:22 | filtering out undefined lookups distributes over concatenation |
| History.PresentPositions | client/src/pages/history.tsx:22 | the kept values are the defined lookups at strictly increasing positions, and every defined position is kept |
| History.ItemsFor | client/src/pages/history.tsx:20-22 | at most one item per id; every item shown is a wardrobe item whose id occurs in the ids; when every id has a match there is exactly one item per id, the first match of that id |
| History.GetItemsForOutfit | client/src/pages/history.tsx:19-23 | the same bounds for an outfit's `items` list: at most one item per id, ids and wardrobe membership, and one first-match per id when all match |
| History.ItemsForOrder | client/src/pages/history.tsx:20-22 | the shown items follow the order of the ids, not wardrobe order: the k-th item is the match of an id at a strictly increasing position, and every id skipped has no match |
| History.ItemsForAppend | client/src/pages/history.tsx:20-22 | resolving a concatenation of id lists is the concatenation of the resolutions |
| History.ItemsForSingle | client/src/pages/history.tsx:20-22 | one id resolves to its first match or to nothing |
| History.UnmatchedIdDropped | client/src/pages/history.tsx:20-22 | an id without a match is silently dropped without affecting the rest |
| History.RepeatedIdRepeated | client/src/pages/history.tsx:20-21 | a repeated id yields its matching item repeated, in place |
| Home.SuggestedItems | client/src/pages/home.tsx:86 | an item is shown exactly when it is in the wardrobe and its id was suggested, and it is shown as many times as it occurs in the wardrobe, never more |
| Home.SuggestedItemsArePresentMarks | client/src/pages/home.tsx:86 | the filter keeps the wardrobe items whose ids were suggested, in wardrobe order |
| Home.SuggestedItemsInWardrobeOrder | client/src/pages/home.tsx:86 | the shown items are a subsequence of the wardrobe at strictly increasing positions, covering every wardrobe position whose id was suggested |
| Home.SuggestedItemsDependOnIdSet | client/src/pages/home.tsx:86 | two suggestions that agree on which wardrobe ids they contain show the same items, whatever their order and repetitions |
| Home.AbsentIdsContributeNothing | client/src/pages/home.tsx:86 | suggested ids that no wardrobe item has change nothing |
| Home.RepeatedIdsDoNotDuplicate | client/src/pages/home.tsx:86 | repeating a suggested id does not duplicate any item |
| Home.SuggestionAndHistoryShowSameItems | client/src/pages/home.tsx:86 | with distinct wardrobe ids, the home filter and the history lookup show the same set of items for the same ids |
| Home.SavePayload | client/src/pages/home.tsx:40-44 | the save request carries the suggestion's ids unchanged, the current occasion, and a weather name that validates back to the current weather |
| Home.SavedOutfitRecordsSuggestion | client/src/pages/home.tsx:40-44 | saving a suggestion stores an outfit with its ids, weather and occasion, stamped with the save time and listed last |
| Settings.OptionsListEveryOptionOnce | client/src/pages/settings.tsx:20-34 | the style and color option lists contain every option, each with a distinct id |
| Settings.ParseStyle | client/src/pages/settings.tsx:40 | the style enum accepts exactly the five style ids and returns the option with that id |
| Settings.ParseColor | client/src/pages/settings.tsx:41 | the color enum accepts exactly the five color ids and returns the option with that id |
| Settings.ParseOptionIds | client/src/pages/settings.tsx:40-41 | every option's id validates back to that option |
| Settings.ValidateAll | client/src/pages/settings.tsx:40-41 | an array validates exactly when every element does, and then yields one parsed option per element, in order |
| Settings.DefaultValues | client/src/pages/settings.tsx:50-53 | both preference lists start with no option checked |
| Settings.Without | client/src/pages/settings.tsx:114-116 | unchecking leaves no occurrence of the id, never grows the list, and keeps every other value with its multiplicity |
| Settings.Toggle | client/src/pages/settings.tsx:110-117 | the checkbox reads checked exactly as it was set; checking appends the id at the end and keeps the existing entries in order; unchecking keeps every other value with its multiplicity |
| Settings.WithoutAbsent | client/src/pages/settings.tsx:114-116 | unchecking an id that is not in the list leaves it unchanged |
| Settings.WithoutAppend | client/src/pages/settings.tsx:114-116 | unchecking works element by element, so the remaining entries keep their order |
| Settings.CheckThenUncheckRestores | client/src/pages/settings.tsx:112-116 | checking an unchecked option and unchecking it again restores the list exactly |
| Settings.UncheckIdempotent | client/src/pages/settings.tsx:114-116 | unchecking twice is unchecking once |
| Settings.ToggleStyle | client/src/pages/settings.tsx:109-117 | a style checkbox changes only the style list, and the box then reads as set |
| Settings.ToggleColor | client/src/pages/settings.tsx:161-169 | a color checkbox changes only the color list, and the box then reads as set |
| Settings.ValidateForm | client/src/pages/settings.tsx:39-42 | a body validates exactly when both lists hold option ids only, and then decodes to a form that submits back to the same body |
| Settings.SubmitValidates | client/src/pages/settings.tsx:83 | whatever the checkboxes did, the submitted form validates and decodes back to the same form |
| Settings.SavedPreferencesMatchForm | client/src/pages/settings.tsx:61-62 | saving the form stores it as the preferences singleton under id 1, and the stored lists decode back to the form |

## Left out

- The HTTP layer (`server/routes.ts`): request validation and status codes are Express plumbing, and several of its routes call storage methods and generators that the repository's storage and model adapter do not define (scheduled outfits, product recommendations); the trends page requests `/api/trends` endpoints that no route serves.
- The language-model adapter (`server/openai.ts`): an external service call and `JSON.parse` of its output; suggestions enter the model as a `Home.Suggestion` value.
- The network and geolocation code of the weather client, and the Kelvin-to-Celsius conversion `Math.round(temp - 273.15)`, which is floating point.
- Weather.MapOpenWeather: takes the already-rounded Celsius temperature as a parameter instead of computing it, because the conversion is floating point.
- Weather.Classify: takes an integer code; a non-integer or non-numeric `id` in the untyped response is not modelled.
- Calendar date matching, all rendering, routing and layout, drag-and-drop, and query-cache invalidation.
- Asynchrony: storage calls are modelled as synchronous state transitions; concurrent writers are not modelled.
- Ids and counters are unbounded integers; a JavaScript number loses precision above 2^53, which the counters would never reach in practice.
- The stored preferences columns are JSON of any shape in the schema; the model fixes them to lists of strings, the shape the settings page sends.
- Home.SavePayload: modelled for a present suggestion only; the save button exists only while a suggestion is shown, so `suggestion?.items` being undefined does not arise from the page.
- The home page's weather state (always `sunny`) and its four occasion buttons are not modelled; weather and occasion are parameters.
- The options' display labels ("Casual", "Neutral Tones", ...): rendering text that no operation reads.
