/** The records the cat discovery screen works on: candidates fetched from the
    image API, their breed metadata, and the rules of the ban list. */
module CatData {

  /** A JavaScript value that may be null or undefined. */
  datatype Option<+T> = None | Some(value: T)

  /** The three kinds of attribute a rule can ban ('breedName', 'temperament',
      'origin'); they are the only kinds the screen ever creates. */
  datatype AttrType = BreedName | Temperament | Origin

  /** A ban-list entry `{ type, value }`. */
  datatype BanRule = BanRule(kind: AttrType, value: string)

  /** One entry of a candidate's `breeds` array. A field that is absent,
      null or undefined is `None`. */
  datatype Breed = Breed(name: Option<string>, temperament: Option<string>, origin: Option<string>)

  /** A fetched candidate: its image URL and its `breeds` property, which is
      `None` when the property is missing or null. */
  datatype Cat = Cat(url: string, breeds: Option<seq<Breed>>)

  /** The breed the ban predicate looks at: `breeds[0]`, when the candidate
      is not null and has a non-empty `breeds` array. */
  function PrimaryBreed(cat: Option<Cat>): Option<Breed>
  {
    if cat.Some? && cat.value.breeds.Some? && |cat.value.breeds.value| > 0
    then Some(cat.value.breeds.value[0])
    else None
  }

  /** The value of attribute `kind` of a breed record. */
  function Field(b: Breed, kind: AttrType): Option<string>
  {
    match kind
    case BreedName => b.name
    case Temperament => b.temperament
    case Origin => b.origin
  }
}
