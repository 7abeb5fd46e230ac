/** The options record of an INI store (IniGetter/IniOptions.cs).
    It is a plain record of auto-properties with initialisers; once a store is
    constructed its options never change, so it is a value here. */
module IniOptions {

  datatype Options = Options(
    readOnly: bool,             // no code of the engine reads it
    allowSave: bool,            // no code of the engine reads it
    caseSensitive: bool,        // names are compared as written
    poundComment: bool,         // a line starting with '#' is a comment
    nameValueDelimiter: char,   // splits a key from its value
    ignoreSpacesInNames: bool,  // spaces are removed from names
    multilineSupport: bool      // a trailing backslash joins the next line
  )

  /** The values the initialisers of the record give. */
  const DefaultOptions: Options := Options(
    readOnly := true,
    allowSave := false,
    caseSensitive := false,
    poundComment := true,
    nameValueDelimiter := '=',
    ignoreSpacesInNames := false,
    multilineSupport := false
  )
}
