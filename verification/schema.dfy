/** The records of the wardrobe application (clothing items, outfits,
    preferences) together with their insert shapes, which are the same
    records without the server-assigned fields. */
module Schema {

  /** A JavaScript `Date`, as milliseconds since the epoch. */
  type Timestamp = int

  /** A clothing item as the client submits it. The source's `type` column is
      called `itemType` here, because `type` is a Dafny keyword. */
  datatype InsertClothingItem = InsertClothingItem(
    name: string,
    itemType: string,
    color: string,
    season: string,
    occasion: string,
    imageUrl: string)

  datatype ClothingItem = ClothingItem(
    id: int,
    name: string,
    itemType: string,
    color: string,
    season: string,
    occasion: string,
    imageUrl: string)

  /** An outfit as the client submits it: clothing-item ids plus context. */
  datatype InsertOutfit = InsertOutfit(items: seq<int>, occasion: string, weather: string)

  datatype Outfit = Outfit(id: int, items: seq<int>, occasion: string, weather: string, createdAt: Timestamp)

  /** The preference lists, in the shape the settings page sends them. */
  datatype InsertPreferences = InsertPreferences(stylePreferences: seq<string>, colorPreferences: seq<string>)

  datatype Preferences = Preferences(id: int, stylePreferences: seq<string>, colorPreferences: seq<string>)

  /** `{ ...item, id }`: the submitted fields extended with an id. */
  function WithItemId(item: InsertClothingItem, id: int): (c: ClothingItem)
    ensures c.id == id
    ensures ItemFields(c) == item
  {
    ClothingItem(id, item.name, item.itemType, item.color, item.season, item.occasion, item.imageUrl)
  }

  /** The submitted fields of a stored item, i.e. everything but its id. */
  function ItemFields(c: ClothingItem): InsertClothingItem
  {
    InsertClothingItem(c.name, c.itemType, c.color, c.season, c.occasion, c.imageUrl)
  }

  /** `{ ...outfit, id, createdAt }`. */
  function WithOutfitId(o: InsertOutfit, id: int, createdAt: Timestamp): (r: Outfit)
    ensures r.id == id && r.createdAt == createdAt
    ensures OutfitFields(r) == o
  {
    Outfit(id, o.items, o.occasion, o.weather, createdAt)
  }

  function OutfitFields(o: Outfit): InsertOutfit
  {
    InsertOutfit(o.items, o.occasion, o.weather)
  }

  /** `{ ...prefs, id }`. */
  function WithPreferencesId(p: InsertPreferences, id: int): (r: Preferences)
    ensures r.id == id
    ensures PreferencesFields(r) == p
  {
    Preferences(id, p.stylePreferences, p.colorPreferences)
  }

  function PreferencesFields(p: Preferences): InsertPreferences
  {
    InsertPreferences(p.stylePreferences, p.colorPreferences)
  }
}
