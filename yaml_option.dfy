/** The untyped option bag that configures a preprocessor (`YAMLOption`). Only its
    lookup is used by the modelled code. */
module YamlOptions {
  import opened Wrappers

  /** A decoded YAML value. The preprocessor only ever reads strings out of the bag,
      so every other YAML shape (number, boolean, list, mapping) is one opaque case. */
  datatype OptionValue = Str(s: string) | Other

  /** Raised by `Get` for a key the bag does not hold. */
  datatype OptionError = MissingOption(key: string)

  datatype YAMLOption = YAMLOption(values: map<string, OptionValue>) {

    /** Looks `key` up; fails, naming the key, when it is absent. */
    function Get(key: string): (r: Result<OptionValue, OptionError>)
      ensures r.Ok? <==> key in values
      ensures r.Ok? ==> r.value == values[key]
      ensures r.Err? ==> r.error == MissingOption(key)
    {
      if key in values then Ok(values[key]) else Err(MissingOption(key))
    }
  }
}
