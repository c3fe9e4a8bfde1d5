/** Loading and validating a MITRE Heimdall InSpec profile: the parsed document, the
    check that it carries a `controls` block, and the extraction of that block. Reading
    the file and parsing JSON are outside the model; only the value the loader returns
    when either fails (the empty object) is kept. */
module Profile {
  import opened Wrappers

  /** One STIG finding of a profile. Only the two entries the mapper reads are kept:
      `desc` (None when absent or null) and `tags`, whose entries map a tag namespace
      such as "nist" to a list of identifiers (None when absent or null). */
  datatype Control = Control(desc: Option<string>, tags: Option<map<string, seq<string>>>)

  /** A parsed profile. `Object` is a JSON object, of which only the `controls` entry is
      read (None when absent or null); `NonObject` is any other JSON value, on which the
      dictionary look-up `.get` raises. */
  datatype Profile = Object(controls: Option<seq<Control>>) | NonObject

  /** What the loader returns when the file cannot be opened or parsed: `{}`. */
  const FailedLoad: Profile := Object(None)

  /** Python truthiness of the `controls` entry: None and `[]` are false. */
  predicate Truthy(v: Option<seq<Control>>) {
    match v
    case None => false
    case Some(cs) => cs != []
  }

  /** `is_valid_profile`: a profile is valid exactly when it is an object whose
      `controls` entry is present and non-empty; a non-object is caught and invalid. */
  function IsValidProfile(p: Profile): (r: bool)
    ensures r <==> p.Object? && p.controls.Some? && |p.controls.value| > 0
  {
    match p
    case NonObject => false
    case Object(cs) => Truthy(cs)
  }

  /** `get_controls`: the `controls` entry as it stands (None when absent); a non-object
      is caught and yields the empty list. */
  function GetControls(p: Profile): (r: Option<seq<Control>>)
    ensures p.Object? ==> r == p.controls
    ensures p.NonObject? ==> r == Some([])
  {
    match p
    case NonObject => Some([])
    case Object(cs) => cs
  }

  /** Validity is exactly non-emptiness of what `get_controls` returns. */
  lemma ValidIffControlsNonEmpty(p: Profile)
    ensures IsValidProfile(p) <==> GetControls(p).Some? && GetControls(p).value != []
  {
  }

  /** The `{}` a failed load returns is rejected by the validity check. */
  lemma FailedLoadIsInvalid()
    ensures !IsValidProfile(FailedLoad)
    ensures GetControls(FailedLoad) == None
  {
  }

  /** The `InSpecMapper` constructor once the profile is loaded: an invalid profile
      stops the process (None); a valid one yields the controls the mapper keeps,
      which are then non-empty and exactly the profile's `controls` entry. */
  function NewMapper(loaded: Profile): (r: Option<seq<Control>>)
    ensures r.Some? <==> IsValidProfile(loaded)
    ensures r.Some? ==> r.value != [] && loaded.Object? && loaded.controls == Some(r.value)
  {
    if IsValidProfile(loaded) then GetControls(loaded) else None
  }
}
