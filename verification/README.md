# InSpec-to-NIST mapper, modelled in Dafny

This project models `InSpecMapper` from `utils/inspec_nist_mapper.py` of the GovReady
oscal-lifecycle-examples repository. The mapper takes the controls of a MITRE Heimdall
InSpec profile (STIG findings) and collates them around the first NIST 800-53 identifier
each one carries. It then renders the groups in two shapes: JSON-lines statements
(`{control_id, text}` per identifier) and a GovReady "combined" document with one
statement per identifier under a component/catalog skeleton.

Two support modules:

- `Wrappers` (`wrappers.dfy`): `Option`.
- `Text` (`text.dfy`): `str.replace("\n", " ")`, `"\n\n".join` and, as the join's
  inverse, `str.split("\n\n")`.

Three modules that follow the mapper's own steps:

- `Profile` (`profile.dfy`): the parsed profile and its controls, `is_valid_profile`,
  `get_controls`, and the constructor's decision to continue or stop.
- `Grouping` (`grouping.dfy`): `map_controls_by_tags`. The Python dictionary is an
  association list with distinct keys in insertion order. `Group` is the loop and
  returns `None` where the loop raises. `IsGroupingOf` is an independent reference
  description of a grouping: each group is the filter of the controls by its key, every
  control's key has a group, and keys are distinct and ordered by first appearance.
  The lemmas prove that the loop meets this description and that the description
  determines the result uniquely.
- `Statements` (`statements.dfy`): `generate_jsonl_statements` and
  `generate_combined_statements`.

The model follows the code where other descriptions of the tool differ:

- Grouping is all or nothing. One control without `tags`, without a `nist` entry, or
  with an empty `nist` list makes the whole grouping `{}`. No single record is skipped.
- The `tag` argument is never read. The namespace is always `"nist"`.
- Keys are not sorted. They keep the order in which they first appear.
- `get_controls` returns the `controls` entry as it stands, which is `None` when the
  entry is absent.
- No `name` is required for a profile to be valid.

## Model

| member | source | states |
|---|---|---|
| `Profile.IsValidProfile` | utils/inspec_nist_mapper.py:70-80 | A profile is valid exactly when it is a JSON object whose `controls` entry is present and non-empty; a non-object is invalid |
| `Profile.GetControls` | utils/inspec_nist_mapper.py:82-89 | Returns the `controls` entry unchanged (absent gives None); a non-object gives the empty list |
| `Profile.ValidIffControlsNonEmpty` | utils/inspec_nist_mapper.py:73-89 | Validity holds exactly when what `get_controls` returns is present and non-empty |
| `Profile.FailedLoadIsInvalid` | utils/inspec_nist_mapper.py:66-75 | The `{}` returned by a failed load is invalid and has no controls |
| `Profile.NewMapper` | utils/inspec_nist_mapper.py:42-50 | The mapper continues exactly for valid profiles, and then keeps a non-empty control list equal to the profile's `controls` |
| `Grouping.Insert` | utils/inspec_nist_mapper.py:99-100 | A loop step keeps keys distinct. A new key is added last with a one-control group. An existing key gets the control appended and every other entry is unchanged |
| `Grouping.Group` | utils/inspec_nist_mapper.py:96-102 | The loop completes exactly when every control has a first `nist` identifier, and then yields distinct keys |
| `Grouping.GroupIsGrouping` | utils/inspec_nist_mapper.py:96-102 | A completed loop meets the reference description. Each group is exactly the controls with its key, in input order, and is non-empty. Every control's key has a group. Keys are distinct and in first-appearance order |
| `Grouping.MapControlsByTags` | utils/inspec_nist_mapper.py:91-105 | If every control is keyed, the result meets the reference description. If any control lacks `tags`, lacks `nist`, or has an empty `nist` list, the result is `{}` |
| `Grouping.TagIgnored` | utils/inspec_nist_mapper.py:91-98 | The result does not depend on the `tag` argument |
| `Grouping.Partition` | utils/inspec_nist_mapper.py:97-100 | A successful grouping partitions the controls: together the groups hold the input's controls with the same multiplicities, and the group sizes sum to the number of controls |
| `Grouping.ControlInOneGroup` | utils/inspec_nist_mapper.py:98-100 | A control is in a group exactly when that group's key is the first entry of the control's `nist` list, and every control is in the group keyed by that first entry |
| `Grouping.GroupingUnique` | utils/inspec_nist_mapper.py:94-102 | At most one dictionary meets the reference description for a given control list |
| `Grouping.GroupCharacterised` | utils/inspec_nist_mapper.py:94-105 | The loop yields `g` if and only if `g` meets the reference description |
| `Text.CleanDesc` | utils/inspec_nist_mapper.py:115 | Replacing line breaks keeps the length, leaves no line break, turns each break into a space and leaves every other character unchanged |
| `Text.SplitJoin` | utils/inspec_nist_mapper.py:116 | Splitting the blank-line join of a non-empty list of newline-free strings returns the list |
| `Statements.CleanDescs` | utils/inspec_nist_mapper.py:115 | The cleaned description list exists exactly when every member has a `desc`; it has one cleaned entry per member, in order |
| `Statements.RenderLines` | utils/inspec_nist_mapper.py:114-117 | Rendering succeeds exactly when every member of every group has a `desc`. It then gives one record per group, in group order, holding the key and the blank-line join of the cleaned descriptions |
| `Statements.JsonlStatements` | utils/inspec_nist_mapper.py:107-120 | With every control keyed and described: one record per distinct first NIST identifier, in first-appearance order, every control's identifier present, and text equal to the join of exactly that identifier's cleaned descriptions. Otherwise `[]` |
| `Statements.JsonlRoundTrip` | utils/inspec_nist_mapper.py:115-116 | A record's text splits on blank lines into its group's cleaned descriptions, one per member, each newline-free and as long as the original |
| `Statements.CatalogKeys` | utils/inspec_nist_mapper.py:157-160 | The catalog's keys are exactly the identifiers of the records written into it |
| `Statements.CatalogValue` | utils/inspec_nist_mapper.py:157-160 | An identifier maps to a one-element list holding its last record's text and the fixed source label |
| `Statements.CombinedStatements` | utils/inspec_nist_mapper.py:122-164 | The result is `[]` exactly when every control is keyed but one lacks `desc`. Otherwise it is a document with one component key, one catalog key `NIST_SP-800-53_rev4` and the single metadata record. The catalog's keys are exactly the first NIST identifiers the controls carry. A failed grouping leaves an empty catalog inside the skeleton |
| `Statements.CombinedStatementsDefault` | utils/inspec_nist_mapper.py:122-164 | Without a component name the document, when there is one, files its single catalog under "My Component"; it is `[]` exactly when every control is keyed but one lacks `desc` |
| `Statements.CombinedCatalogText` | utils/inspec_nist_mapper.py:155-160 | Each catalog key holds one statement with the fixed source label. Its text is the blank-line join of the cleaned descriptions of exactly the controls with that key, in input order |
| `Statements.CombinedMatchesJsonl` | utils/inspec_nist_mapper.py:157-160 | The combined catalog has exactly the JSON-lines identifiers as keys, each holding a one-statement list with that record's text; when the document is `[]` the JSON-lines output is empty too |
| `Statements.TwoControlsOneRecord` | utils/inspec_nist_mapper.py:114-116 | Two AC-1 controls with descriptions "a\nb" and "c" give the single record `("AC-1", "a b\n\nc")` |

## Left out

- Reading the profile file and parsing its JSON (`load_inspec_profile`, lines 59-68) are I/O and a library parser. Only the failure result `{}` is modelled, as `Profile.FailedLoad`.
- Logging set-up and environment variables (lines 22-28), the `print` at line 38 and the log messages in every `except` are output only. Stopping the process with `sys.exit(1)` (line 47) is modelled as `NewMapper` returning `None`.
- `run()` (lines 166-222) is argument parsing, hard-coded paths, file writes and `json.dump(..., sort_keys=True)`, all I/O through library calls.
- The JSON encoding of each record by `json.dumps` (line 116) is library serialisation. A record is kept as a `Line` value.
- `datetime.datetime.now()` (line 130) is a clock. The `created` field is a parameter of `CombinedStatements`.
- Statements.CombinedStatements: the catalog is a Dafny `map`, so the insertion order of its keys is not modelled. `run()` writes the document with `sort_keys=True`, so that order never reaches the artifact.
- JSON shapes the mapper does not expect are not modelled, because the data model types them away. These include a `controls` value that is not a list, a `nist` value that is a string (indexing would take its first character), non-string identifiers, and a `desc` that is not a string. A JSON `null` for `controls`, `tags`, `nist` or `desc` behaves like an absent entry, as it does in the code.
- A control keeps only its `desc` and `tags` entries. Its other fields (`id`, `title`, `impact`, `code`, ...) are dropped. Both renderers read only `desc` and `tags`, so nothing the model computes depends on them. The whole control objects that `run()` dumps as the grouped artifact are therefore not modelled field for field.
