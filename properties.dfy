/** The slice of `java.util.Properties` the codec uses: a string-to-string
    table that is filled with `setProperty` and read with
    `getProperty(key, default)`. */
module JavaProperties {

  /** `getProperty(key, defaultValue)` on a table holding `entries`. */
  function GetProperty(entries: map<string, string>, key: string, defaultValue: string): (r: string)
    ensures key in entries ==> r == entries[key]
    ensures key !in entries ==> r == defaultValue
  {
    if key in entries then entries[key] else defaultValue
  }

  class Properties {
    var entries: map<string, string>

    /** `new Properties()`: an empty table. */
    constructor ()
      ensures entries == map[]
    {
      entries := map[];
    }

    /** `setProperty(key, value)`: adds the entry or overwrites it. */
    method SetProperty(key: string, value: string)
      modifies this
      ensures entries == old(entries)[key := value]
    {
      entries := entries[key := value];
    }
  }
}
