# Egg configuration inheritance and egg variable updates

A Dafny model of two pieces of the panel's Egg logic.

- **Configuration inheritance** (`app/Models/Egg.php`, module `EggConfig`). An Egg can copy its
  install script from another Egg (`copy_script_from`) and its configuration from another Egg
  (`config_from`). Eight accessors compute the effective value of a field. Seven of them follow
  one policy: the egg's own non-null value wins; with no delegate the own value is returned,
  null included; otherwise the delegate's raw field is returned. `file_denylist` is different:
  once `config_from` is set, the parent's value always wins. Resolution stops after one hop.
  Eggs are a datatype with `Option` fields; the `belongsTo` lookups read a `map<int, Egg>`.
- **Variable update** (`app/Services/Eggs/Variables/VariableUpdateService.php`, module
  `VariableUpdate`). `handle` runs three checks in order and stops at the first failure:
  1. the requested environment name, upper-cased, is not reserved;
  2. no other variable of the same egg uses that name;
  3. the rule validator accepts the rules, after a `;;`-delimited string is split.

  Then one scoped update writes the request into the rows matching `(egg id, variable id)`,
  storing `""` for missing text fields. The variable table is a class `VariableTable` with a
  `seq` of rows. The service is a class `VariableUpdateService` whose `Handle` method
  modifies that table. The pure parts are functions: `IsReserved`, `SiblingCount`, `Split`,
  `Normalize`, and `Check` (the whole check sequence). `Apply` is the update. `Handle` is
  proved to return `Check`'s outcome. It is also proved to leave the table unchanged on
  failure and to set it to `Apply` of the old rows on success.

Modelling choices:
- A delegate reference that names no stored egg gives `MissingDelegate(id)`. This only
  matters when the accessor actually reads the delegate. In PHP this reads a property of
  `null`, and the framework turns that warning into an exception.
- The reserved names (`EggVariable::RESERVED_ENV_NAMES`, split on `,`) are a constructor
  parameter `reservedEnvNames: set<string>`. `EggVariable` is not part of this model.
- The rule validator (the `ValidatesValidationRules` trait and the validation factory) is a
  constructor parameter `validator: Rules -> Verdict`. The trait is not part of this model.
- `strtoupper` is modelled as ASCII upper-casing.
- PHP's `empty()` treats `null`, `""`, `"0"` and `[]` as empty, so `IsEmptyRules` does too.
- A rules string without `;;` goes to the validator unchanged, as a string; how the
  validator treats a plain string is outside this model.
- A target id that matches no row of the egg is not an error: the update changes zero rows.

## Model

| member | source | states |
|---|---|---|
| `EggConfig.ScriptFrom` | app/Models/Egg.php:260-263 | the egg named by `copy_script_from`, present exactly when the reference is set and stored |
| `EggConfig.ConfigFrom` | app/Models/Egg.php:270-273 | the egg named by `config_from`, present exactly when the reference is set and stored |
| `EggConfig.CopyScriptInstall` | app/Models/Egg.php:110-117 | own non-null `script_install` wins whatever the delegate; no `copy_script_from` gives the own value even when null; otherwise the delegate's raw `script_install`, or `MissingDelegate` when the delegate is not stored |
| `EggConfig.CopyScriptEntry` | app/Models/Egg.php:125-134 | the same three-way policy for `script_entry` through `copy_script_from` |
| `EggConfig.CopyScriptContainer` | app/Models/Egg.php:142-151 | the same three-way policy for `script_container` through `copy_script_from` |
| `EggConfig.InheritConfigFiles` | app/Models/Egg.php:158-165 | the same policy for `config_files` through `config_from` |
| `EggConfig.InheritConfigStartup` | app/Models/Egg.php:172-179 | the same policy for `config_startup` through `config_from` |
| `EggConfig.InheritConfigStop` | app/Models/Egg.php:186-193 | the same policy for `config_stop` through `config_from` |
| `EggConfig.InheritFeatures` | app/Models/Egg.php:201-208 | the same policy for `features` through `config_from` |
| `EggConfig.InheritFileDenylist` | app/Models/Egg.php:216-223 | without `config_from`, the own denylist; with it, the parent's raw denylist whatever the own value, or `MissingDelegate` |
| `EggConfig.InstallScriptStopsAfterOneHop` | app/Models/Egg.php:112-116 | an inheriting egg gets its parent's raw script; this equals the parent's resolved script exactly when the parent would not itself have reached further |
| `EggConfig.ChainIsNotFollowed` | app/Models/Egg.php:112-116 | in a chain child → parent → grandparent whose only script is the grandparent's, the child resolves to null while the parent resolves to the grandparent's script |
| `EggConfig.EmptyFeaturesBlockInheritance` | app/Models/Egg.php:19-20 | an empty feature list is kept and blocks inheritance from the parent |
| `EggConfig.DenylistAsymmetry` | app/Models/Egg.php:201-223 | with a stored config parent and both own values set, features keep the egg's value while the denylist takes the parent's |
| `EggConfig.DenylistIgnoresOwnValue` | app/Models/Egg.php:216-223 | with `config_from` set, replacing the egg's own denylist never changes the resolved denylist |
| `EggConfig.ScriptResolutionReadsOnlyDelegate` | app/Models/Egg.php:110-151 | the three script accessors depend on no stored egg except the one `copy_script_from` names |
| `EggConfig.ConfigResolutionReadsOnlyDelegate` | app/Models/Egg.php:158-223 | the five config accessors depend on no stored egg except the one `config_from` names |
| `EggConfig.SelfDelegationYieldsOwnValues` | app/Models/Egg.php:110-223 | an egg that delegates to itself resolves every field to its own value: a self-reference does not loop |
| `EggConfig.ScriptFieldsIndependent` | app/Models/Egg.php:125-151 | changing `script_install` changes neither the resolved entry nor the resolved container |
| `EggConfig.InheritedStartScript` | app/Models/Egg.php:112-116 | a child with no install script copies its parent's `./start.sh` |
| `VariableUpdate.UpperChar` | app/Services/Eggs/Variables/VariableUpdateService.php:48 | the upper-cased character is never a lower-case letter; non-letters are kept |
| `VariableUpdate.Upper` | app/Services/Eggs/Variables/VariableUpdateService.php:48 | `strtoupper`: same length, no lower-case letter left |
| `VariableUpdate.UpperIgnoresCase` | app/Services/Eggs/Variables/VariableUpdateService.php:48 | two names upper-case to the same string exactly when they differ only in letter case |
| `VariableUpdate.UpperIdempotent` | app/Services/Eggs/Variables/VariableUpdateService.php:48 | upper-casing twice is upper-casing once |
| `VariableUpdate.UpperMatch` | app/Services/Eggs/Variables/VariableUpdateService.php:48 | the upper-cased name is in the set exactly when the name equals, ignoring case, an upper-case entry of the set |
| `VariableUpdate.IsReserved` | app/Services/Eggs/Variables/VariableUpdateService.php:48 | reserved exactly when the name equals, ignoring case, an upper-case reserved entry |
| `VariableUpdate.ReservedInAnyCase` | app/Services/Eggs/Variables/VariableUpdateService.php:47-49 | names that differ only in case are reserved or not together |
| `VariableUpdate.SiblingCount` | app/Services/Eggs/Variables/VariableUpdateService.php:52-55 | the count is zero exactly when no row of the egg with a different id has the requested name |
| `VariableUpdate.ContainsDelimiterAt` | app/Services/Eggs/Variables/VariableUpdateService.php:64 | `Str::contains(s, ';;')`: true exactly when some position of the string starts a `;;` |
| `VariableUpdate.Split` | app/Services/Eggs/Variables/VariableUpdateService.php:65 | `explode` gives at least one piece, and more than one exactly when the string holds `;;`; the first piece is a prefix of the string and no piece contains `;;` |
| `VariableUpdate.JoinSplit` | app/Services/Eggs/Variables/VariableUpdateService.php:64-66 | joining the pieces with `;;` gives back the rule string |
| `VariableUpdate.SplitWithoutDelimiter` | app/Services/Eggs/Variables/VariableUpdateService.php:64-66 | a string without `;;` is one piece |
| `VariableUpdate.SplitAfterPiece` | app/Services/Eggs/Variables/VariableUpdateService.php:65 | a leading piece with no `;;` and no trailing `;` is cut off whole |
| `VariableUpdate.SplitJoin` | app/Services/Eggs/Variables/VariableUpdateService.php:65 | pieces that are safe to join split back into the same pieces, in order |
| `VariableUpdate.SplitThreeRules` | app/Services/Eggs/Variables/VariableUpdateService.php:65 | three rules without `;` joined by `;;` split into those three rules |
| `VariableUpdate.SplitExample` | app/Services/Eggs/Variables/VariableUpdateService.php:64-66 | `"required;;string;;max:20"` becomes `["required", "string", "max:20"]` |
| `VariableUpdate.Normalize` | app/Services/Eggs/Variables/VariableUpdateService.php:62-67 | lists and strings without `;;` are passed unchanged; a string with `;;` becomes exactly the `explode` pieces, at least two, none containing `;;`, joining back to the string |
| `VariableUpdate.NormalizeExample` | app/Services/Eggs/Variables/VariableUpdateService.php:62-67 | `"required;;string;;max:20"` reaches the validator as `["required", "string", "max:20"]` |
| `VariableUpdate.IsEmptyRules` | app/Services/Eggs/Variables/VariableUpdateService.php:62 | PHP's `empty($data['rules'] ?? '')`: true exactly for missing rules, `""`, `"0"` and the empty list |
| `VariableUpdate.Check` | app/Services/Eggs/Variables/VariableUpdateService.php:47-68 | reserved error exactly when a name is given and reserved; duplicate error exactly when it is not reserved and a sibling uses it; rule error exactly when the name passed, the rules are non-empty and the validator rejects them, with the validator's detail; name errors carry the name as given |
| `VariableUpdate.Updated` | app/Services/Eggs/Variables/VariableUpdateService.php:73-79 | the written row keeps its ids, takes the given fields with `""` for missing texts and rules, and copies both flags |
| `VariableUpdate.Apply` | app/Services/Eggs/Variables/VariableUpdateService.php:72 | the update keeps the number of rows |
| `VariableUpdate.ApplyChangesOnlyTarget` | app/Services/Eggs/Variables/VariableUpdateService.php:72 | every row not scoped to (egg id, request id) is unchanged, same-id rows of other eggs included |
| `VariableUpdate.ApplyWritesDefaults` | app/Services/Eggs/Variables/VariableUpdateService.php:73-79 | a target row keeps its ids, takes the given fields, and stores `""` for missing name, description, env name, default value and rules; the two flags are copied |
| `VariableUpdate.ApplyIdempotent` | app/Services/Eggs/Variables/VariableUpdateService.php:72-80 | applying the same update twice equals applying it once |
| `VariableUpdate.VariableUpdateService.constructor` | app/Services/Eggs/Variables/VariableUpdateService.php:25-28 | the service keeps the injected validator and the reserved names |
| `VariableUpdate.VariableUpdateService.Handle` | app/Services/Eggs/Variables/VariableUpdateService.php:45-81 | returns the outcome of the checks; on any error the table is unchanged; on success the table is the scoped update of the old rows |
| `VariableUpdate.ReservedNameRejected` | app/Services/Eggs/Variables/VariableUpdateService.php:47-49 | a name equal to a reserved name up to case (`server_port`) is rejected as reserved before anything else |
| `VariableUpdate.OwnRowIsNotDuplicate` | app/Services/Eggs/Variables/VariableUpdateService.php:54 | when only the target's own rows use the name, no duplicate error is raised |
| `VariableUpdate.DuplicateRejected` | app/Services/Eggs/Variables/VariableUpdateService.php:52-58 | a non-reserved name used by another variable of the egg is rejected as a duplicate |
| `VariableUpdate.AbsentNameSkipsNameChecks` | app/Services/Eggs/Variables/VariableUpdateService.php:47-60 | without a requested name the outcome depends on neither the reserved set nor the table nor the egg |
| `VariableUpdate.EmptyRulesSkipValidation` | app/Services/Eggs/Variables/VariableUpdateService.php:62-68 | empty or missing rules never reach the validator: the outcome is the same for any two validators and is never a rule error |
| `VariableUpdate.SuccessKeepsNameUnique` | app/Services/Eggs/Variables/VariableUpdateService.php:47-80 | after a successful update with a name, the name is not reserved, and within the egg exactly the target rows carry it |

## Left out

- Eloquent plumbing (`nest`, `servers`, `variables`, the query builder) and the model
  configuration (`$fillable`, `$casts`, `$attributes`, `$validationRules`, the constants
  `RESOURCE_NAME`, `FEATURE_EULA_POPUP`, `FEATURE_FASTDL`). These are framework
  configuration, not logic; the tables are a map and a sequence instead.
- `options` extraction (VariableUpdateService.php line 70): it is computed and never used.
- The rule language of the validator and the contents of the reserved-name list: both are
  parameters.
- Message strings (`trans`) and the exception classes: an `UpdateError` datatype carrying
  the name or the validator's detail stands for them.
- `SiblingCount`: uses exact string equality; the database collation is outside the model.
  A case-insensitive collation would find more duplicates.
- `IsReserved`: uses string membership where PHP's `in_array` compares loosely. The two
  differ only for numeric strings, which the reserved list does not contain.
- `Upper`: models `strtoupper` on ASCII letters only; locale-dependent upper-casing of other
  characters is not modelled.
- `UpdateRequest`: `id`, `user_viewable` and `user_editable` are always present. The source
  reads them without `??`, so when one is missing PHP raises before the update and nothing is
  written; the model does not show that error path.
- Nullable columns of `egg_variables`: stored text fields are plain strings, since this
  service only ever writes strings into them.
- The race between the uniqueness count and the update under concurrent requests:
  concurrency is out of scope.
- Chasing delegate chains or detecting cycles: the source does neither, and the model keeps
  that one-hop behaviour.
