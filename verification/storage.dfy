/** What a repository finds in its JSON file. Every store reads the whole file into a list;
    the file contents are abstracted to the cases the repositories tell apart. */
module Storage {
  import opened Wrappers

  datatype StoredFile<T> =
    | Missing                   // `File.Exists` is false
    | Blank                     // only white space
    | NullJson                  // the JSON literal `null`
    | Corrupt                   // text the deserializer rejects
    | Records(items: seq<T>)    // a JSON array of records

  /** The `ReadData` of the user, role, widget and goal repositories: a missing or blank
      file, or a `null` document, reads as an empty list; a corrupt file throws. */
  function ReadData<T>(f: StoredFile<T>): (r: Result<seq<T>>)
    ensures r.Ok? <==> !f.Corrupt?
    ensures r.Ok? && !f.Records? ==> r.value == []
    ensures f.Records? ==> r == Ok(f.items)
  {
    match f
    case Missing => Ok([])
    case Blank => Ok([])
    case NullJson => Ok([])
    case Corrupt => Err("JsonException")
    case Records(items) => Ok(items)
  }

  /** The time tracker's `LoadAll`, which has no blank-text check: blank text reaches the
      deserializer and throws like corrupt text does. */
  function LoadAll<T>(f: StoredFile<T>): (r: Result<seq<T>>)
    ensures r.Ok? <==> !f.Corrupt? && !f.Blank?
    ensures f.Records? ==> r == Ok(f.items)
    ensures r.Ok? && !f.Records? ==> r.value == []
  {
    match f
    case Missing => Ok([])
    case Blank => Err("JsonException")
    case NullJson => Ok([])
    case Corrupt => Err("JsonException")
    case Records(items) => Ok(items)
  }

  /** The two loaders differ on exactly one kind of file: blank text. */
  lemma LoadersDifferOnlyOnBlank<T>(f: StoredFile<T>)
    ensures ReadData(f) != LoadAll(f) <==> f.Blank?
  {
  }
}
