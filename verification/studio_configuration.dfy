/** Studio's configuration store: a property map filled from a base YAML file on the class
    path and, when the base file names one, an additional YAML file whose entries override
    the base ones. Loading only ever adds or overwrites keys; the map is never cleared. */
module StudioConfiguration {
  import opened Wrappers

  /** What YAML parsing of a readable class-path resource yields: a document whose values
      are already rendered with `toString`, a null document (an empty file), or a parse error. */
  datatype Yaml = Document(entries: map<string, string>) | NullDocument | Malformed

  /** Where the properties come from.
      - `configLocation`: the class-path location of the base file.
      - `additionalKey`: the base property naming the additional file's location
        (the `LOAD_ADDITIONAL_CONFIGURATION` constant).
      - `classpath`: the readable resources; a location absent from it makes
        `getInputStream` throw an IOException. */
  datatype Sources = Sources(configLocation: string, additionalKey: string, classpath: map<string, Yaml>)

  /** The property map after a load, and whether the load threw. */
  datatype Loaded = Loaded(properties: map<string, string>, threw: bool)

  /** One `put` per entry: later entries override, untouched keys stay. */
  function Merge(properties: map<string, string>, entries: map<string, string>): (r: map<string, string>)
    ensures r.Keys == properties.Keys + entries.Keys
    ensures forall k :: k in entries ==> r[k] == entries[k]
    ensures forall k :: k in properties && k !in entries ==> r[k] == properties[k]
  {
    properties + entries
  }

  /** The `for (key : entries.keySet()) properties.put(key, ...)` loop. */
  method PutAll(properties: map<string, string>, entries: map<string, string>) returns (r: map<string, string>)
    ensures r == Merge(properties, entries)
  {
    r := properties;
    var pending := entries.Keys;
    while pending != {}
      invariant pending <= entries.Keys
      invariant r.Keys == properties.Keys + (entries.Keys - pending)
      invariant forall k :: k in entries.Keys - pending ==> r[k] == entries[k]
      invariant forall k :: k in properties && k !in entries.Keys - pending ==> r[k] == properties[k]
      decreases pending
    {
      var key :| key in pending;
      r := r[key := entries[key]];
      pending := pending - {key};
    }
  }

  /** The base properties: the parsed base file, or an empty map when it cannot be read. */
  function ReadBase(src: Sources): (r: Yaml)
    ensures src.configLocation !in src.classpath ==> r == Document(map[])
    ensures src.configLocation in src.classpath ==> r == src.classpath[src.configLocation]
  {
    if src.configLocation in src.classpath then src.classpath[src.configLocation]
    else Document(map[])
  }

  /** The additional properties: consulted only when the base names a location, and empty
      when there is none or it cannot be read. */
  function ReadAdditional(src: Sources, base: map<string, string>): (r: Yaml)
    ensures src.additionalKey !in base ==> r == Document(map[])
    ensures src.additionalKey in base && base[src.additionalKey] !in src.classpath ==> r == Document(map[])
    ensures src.additionalKey in base && base[src.additionalKey] in src.classpath ==>
              r == src.classpath[base[src.additionalKey]]
  {
    if src.additionalKey in base then
      var location := base[src.additionalKey];
      if location in src.classpath then src.classpath[location] else Document(map[])
    else Document(map[])
  }

  /** `loadConfiguration`: read the base file, then the additional file it names, then put
      the base entries and over them the additional entries. A parse error in either file, or
      a null document from either (its `toString` in the debug log throws), escapes before
      anything is put. */
  function LoadConfiguration(properties: map<string, string>, src: Sources): (r: Loaded)
    ensures r.properties.Keys >= properties.Keys
    ensures r.threw <==> !ReadBase(src).Document? || !ReadAdditional(src, ReadBase(src).entries).Document?
    ensures ReadBase(src).Document? && !r.threw ==>
              var base := ReadBase(src).entries;
              var extra := ReadAdditional(src, base);
              && extra.Document?
              && r.properties.Keys == properties.Keys + base.Keys + extra.entries.Keys
              && (forall k :: k in extra.entries ==> r.properties[k] == extra.entries[k])
              && (forall k :: k in base && k !in extra.entries ==> r.properties[k] == base[k])
              && (forall k :: k in properties && k !in base && k !in extra.entries ==> r.properties[k] == properties[k])
    ensures !ReadBase(src).Document? ==> r == Loaded(properties, true)
    ensures ReadBase(src).Document? && !ReadAdditional(src, ReadBase(src).entries).Document? ==>
              r == Loaded(properties, true)
  {
    match ReadBase(src)
    case Malformed => Loaded(properties, true)
    case NullDocument => Loaded(properties, true)
    case Document(base) =>
      match ReadAdditional(src, base)
      case Malformed => Loaded(properties, true)
      case NullDocument => Loaded(properties, true)
      case Document(extra) => Loaded(Merge(Merge(properties, base), extra), false)
  }

  /** `getProperty`: the stored value, or null for an unknown key. */
  function GetProperty(properties: map<string, string>, key: string): (r: Option<string>)
    ensures r.Some? <==> key in properties
    ensures r.Some? ==> r.value == properties[key]
  {
    if key in properties then Some(properties[key]) else None
  }

  /** After a successful load, `getProperty` answers the additional value for every key the
      additional file sets, the base value for every other key the base file sets, and the
      value held before the load for every key neither file sets. */
  lemma LoadThenGet(properties: map<string, string>, src: Sources, key: string)
    requires ReadBase(src).Document? && !LoadConfiguration(properties, src).threw
    ensures var base := ReadBase(src).entries;
            var extra := ReadAdditional(src, base).entries;
            var got := GetProperty(LoadConfiguration(properties, src).properties, key);
            && (key in extra ==> got == Some(extra[key]))
            && (key !in extra && key in base ==> got == Some(base[key]))
            && (key !in extra && key !in base ==> got == GetProperty(properties, key))
  {
  }

  /** An empty additional file parses to a null document, and its `toString` in the debug log
      throws before the put loops run: the map keeps its old contents, base entries included. */
  lemma EmptyAdditionalChangesNothing(properties: map<string, string>, src: Sources, location: string)
    requires ReadBase(src).Document? && src.additionalKey in ReadBase(src).entries
    requires ReadBase(src).entries[src.additionalKey] == location
    requires location in src.classpath && src.classpath[location] == NullDocument
    ensures LoadConfiguration(properties, src) == Loaded(properties, true)
  {
  }

  /** A base file that cannot be read leaves the base empty and raises nothing; so no additional
      file is read either, and the property map is unchanged. */
  lemma UnreadableBaseChangesNothing(properties: map<string, string>, src: Sources)
    requires src.configLocation !in src.classpath
    ensures LoadConfiguration(properties, src) == Loaded(properties, false)
  {
  }

  /** The additional file is consulted only when the base names one: if the base does not,
      any other class-path resource may be anything at all without changing the outcome. */
  lemma AdditionalOnlyWhenNamed(properties: map<string, string>, src: Sources, other: Sources)
    requires src.configLocation == other.configLocation && src.additionalKey == other.additionalKey
    requires src.configLocation in src.classpath <==> other.configLocation in other.classpath
    requires src.configLocation in src.classpath ==>
               src.classpath[src.configLocation] == other.classpath[other.configLocation]
    requires ReadBase(src).Document? ==> src.additionalKey !in ReadBase(src).entries
    ensures LoadConfiguration(properties, src) == LoadConfiguration(properties, other)
  {
  }

  /** Loading twice from the same files leaves what loading once left. */
  lemma LoadIdempotent(properties: map<string, string>, src: Sources)
    ensures LoadConfiguration(LoadConfiguration(properties, src).properties, src)
            == LoadConfiguration(properties, src)
  {
  }
}
