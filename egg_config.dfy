/**
 * Effective configuration of an Egg (app/Models/Egg.php).
 *
 * An Egg may copy its install script from another Egg (`copy_script_from`) and
 * its configuration from another Egg (`config_from`). Each accessor resolves one
 * field by looking at the egg itself and, at most, at the one egg it names: the
 * delegate's RAW field is returned, and the delegate's own delegation is never
 * followed.
 */
module EggConfig {
  import opened Wrappers

  type EggId = int

  /** One row of the `eggs` table, restricted to the fields the accessors use. */
  datatype Egg = Egg(
    id: EggId,
    scriptInstall: Option<string>,
    scriptEntry: Option<string>,
    scriptContainer: Option<string>,
    copyScriptFrom: Option<EggId>,
    configFiles: Option<string>,
    configStartup: Option<string>,
    configStop: Option<string>,
    features: Option<seq<string>>,
    fileDenylist: Option<seq<string>>,
    configFrom: Option<EggId>)

  /** The `eggs` table, keyed by id: what the `belongsTo` relations look up. */
  type EggStore = map<EggId, Egg>

  /**
   * The value an accessor produces. `MissingDelegate(ref)` is the case where the
   * accessor has to read the delegate but no egg with id `ref` exists: PHP then
   * reads a property of `null`, which the framework turns into an exception.
   */
  datatype Resolution<T> = Resolved(value: Option<T>) | MissingDelegate(ref: EggId)

  /** The egg stored under `ref`, if `ref` is set and present. */
  function Lookup(ref: Option<EggId>, store: EggStore): (p: Option<Egg>)
    ensures p.Some? <==> ref.Some? && ref.value in store
    ensures p.Some? ==> p.value == store[ref.value]
  {
    if ref.Some? && ref.value in store then Some(store[ref.value]) else None
  }

  /** The `scriptFrom` relation: the egg named by `copy_script_from`. */
  function ScriptFrom(e: Egg, store: EggStore): (p: Option<Egg>)
    ensures p.Some? <==> e.copyScriptFrom.Some? && e.copyScriptFrom.value in store
    ensures p.Some? ==> p.value == store[e.copyScriptFrom.value]
  {
    Lookup(e.copyScriptFrom, store)
  }

  /** The `configFrom` relation: the egg named by `config_from`. */
  function ConfigFrom(e: Egg, store: EggStore): (p: Option<Egg>)
    ensures p.Some? <==> e.configFrom.Some? && e.configFrom.value in store
    ensures p.Some? ==> p.value == store[e.configFrom.value]
  {
    Lookup(e.configFrom, store)
  }

  /**
   * The policy shared by seven accessors: a non-null own value wins; with no
   * delegate the own value (possibly null) is returned; otherwise the
   * delegate's raw field.
   */
  function PreferOwn<T>(own: Option<T>, ref: Option<EggId>, parent: Option<Egg>, field: Egg -> Option<T>): Resolution<T>
  {
    if own.Some? || ref.None? then Resolved(own)
    else match parent
      case Some(p) => Resolved(field(p))
      case None => MissingDelegate(ref.value)
  }

  /** The policy of `file_denylist` alone: with a delegate, the delegate's raw value always wins. */
  function ParentWins<T>(own: Option<T>, ref: Option<EggId>, parent: Option<Egg>, field: Egg -> Option<T>): Resolution<T>
  {
    if ref.None? then Resolved(own)
    else match parent
      case Some(p) => Resolved(field(p))
      case None => MissingDelegate(ref.value)
  }

  // ---------------------------------------------------------------------------
  // Script group, delegated through copy_script_from
  // ---------------------------------------------------------------------------

  /** getCopyScriptInstallAttribute: the effective install script. */
  function CopyScriptInstall(e: Egg, store: EggStore): (r: Resolution<string>)
    ensures e.scriptInstall.Some? ==> r == Resolved(e.scriptInstall)
    ensures e.copyScriptFrom.None? ==> r == Resolved(e.scriptInstall)
    ensures e.scriptInstall.None? && e.copyScriptFrom.Some? && e.copyScriptFrom.value in store ==>
              r == Resolved(store[e.copyScriptFrom.value].scriptInstall)
    ensures e.scriptInstall.None? && e.copyScriptFrom.Some? && e.copyScriptFrom.value !in store ==>
              r == MissingDelegate(e.copyScriptFrom.value)
  {
    PreferOwn(e.scriptInstall, e.copyScriptFrom, ScriptFrom(e, store), (p: Egg) => p.scriptInstall)
  }

  /** getCopyScriptEntryAttribute: the effective script entry command. */
  function CopyScriptEntry(e: Egg, store: EggStore): (r: Resolution<string>)
    ensures e.scriptEntry.Some? ==> r == Resolved(e.scriptEntry)
    ensures e.copyScriptFrom.None? ==> r == Resolved(e.scriptEntry)
    ensures e.scriptEntry.None? && e.copyScriptFrom.Some? && e.copyScriptFrom.value in store ==>
              r == Resolved(store[e.copyScriptFrom.value].scriptEntry)
    ensures e.scriptEntry.None? && e.copyScriptFrom.Some? && e.copyScriptFrom.value !in store ==>
              r == MissingDelegate(e.copyScriptFrom.value)
  {
    PreferOwn(e.scriptEntry, e.copyScriptFrom, ScriptFrom(e, store), (p: Egg) => p.scriptEntry)
  }

  /** getCopyScriptContainerAttribute: the effective install container. */
  function CopyScriptContainer(e: Egg, store: EggStore): (r: Resolution<string>)
    ensures e.scriptContainer.Some? ==> r == Resolved(e.scriptContainer)
    ensures e.copyScriptFrom.None? ==> r == Resolved(e.scriptContainer)
    ensures e.scriptContainer.None? && e.copyScriptFrom.Some? && e.copyScriptFrom.value in store ==>
              r == Resolved(store[e.copyScriptFrom.value].scriptContainer)
    ensures e.scriptContainer.None? && e.copyScriptFrom.Some? && e.copyScriptFrom.value !in store ==>
              r == MissingDelegate(e.copyScriptFrom.value)
  {
    PreferOwn(e.scriptContainer, e.copyScriptFrom, ScriptFrom(e, store), (p: Egg) => p.scriptContainer)
  }

  // ---------------------------------------------------------------------------
  // Config group, delegated through config_from
  // ---------------------------------------------------------------------------

  /** getInheritConfigFilesAttribute: the effective file configuration. */
  function InheritConfigFiles(e: Egg, store: EggStore): (r: Resolution<string>)
    ensures e.configFiles.Some? ==> r == Resolved(e.configFiles)
    ensures e.configFrom.None? ==> r == Resolved(e.configFiles)
    ensures e.configFiles.None? && e.configFrom.Some? && e.configFrom.value in store ==>
              r == Resolved(store[e.configFrom.value].configFiles)
    ensures e.configFiles.None? && e.configFrom.Some? && e.configFrom.value !in store ==>
              r == MissingDelegate(e.configFrom.value)
  {
    PreferOwn(e.configFiles, e.configFrom, ConfigFrom(e, store), (p: Egg) => p.configFiles)
  }

  /** getInheritConfigStartupAttribute: the effective startup configuration. */
  function InheritConfigStartup(e: Egg, store: EggStore): (r: Resolution<string>)
    ensures e.configStartup.Some? ==> r == Resolved(e.configStartup)
    ensures e.configFrom.None? ==> r == Resolved(e.configStartup)
    ensures e.configStartup.None? && e.configFrom.Some? && e.configFrom.value in store ==>
              r == Resolved(store[e.configFrom.value].configStartup)
    ensures e.configStartup.None? && e.configFrom.Some? && e.configFrom.value !in store ==>
              r == MissingDelegate(e.configFrom.value)
  {
    PreferOwn(e.configStartup, e.configFrom, ConfigFrom(e, store), (p: Egg) => p.configStartup)
  }

  /** getInheritConfigStopAttribute: the effective stop command. */
  function InheritConfigStop(e: Egg, store: EggStore): (r: Resolution<string>)
    ensures e.configStop.Some? ==> r == Resolved(e.configStop)
    ensures e.configFrom.None? ==> r == Resolved(e.configStop)
    ensures e.configStop.None? && e.configFrom.Some? && e.configFrom.value in store ==>
              r == Resolved(store[e.configFrom.value].configStop)
    ensures e.configStop.None? && e.configFrom.Some? && e.configFrom.value !in store ==>
              r == MissingDelegate(e.configFrom.value)
  {
    PreferOwn(e.configStop, e.configFrom, ConfigFrom(e, store), (p: Egg) => p.configStop)
  }

  /** getInheritFeaturesAttribute: the effective feature list. */
  function InheritFeatures(e: Egg, store: EggStore): (r: Resolution<seq<string>>)
    ensures e.features.Some? ==> r == Resolved(e.features)
    ensures e.configFrom.None? ==> r == Resolved(e.features)
    ensures e.features.None? && e.configFrom.Some? && e.configFrom.value in store ==>
              r == Resolved(store[e.configFrom.value].features)
    ensures e.features.None? && e.configFrom.Some? && e.configFrom.value !in store ==>
              r == MissingDelegate(e.configFrom.value)
  {
    PreferOwn(e.features, e.configFrom, ConfigFrom(e, store), (p: Egg) => p.features)
  }

  /**
   * getInheritFileDenylistAttribute. Unlike the other config fields, the egg's own
   * denylist is ignored once `config_from` is set.
   */
  function InheritFileDenylist(e: Egg, store: EggStore): (r: Resolution<seq<string>>)
    ensures e.configFrom.None? ==> r == Resolved(e.fileDenylist)
    ensures e.configFrom.Some? && e.configFrom.value in store ==>
              r == Resolved(store[e.configFrom.value].fileDenylist)
    ensures e.configFrom.Some? && e.configFrom.value !in store ==>
              r == MissingDelegate(e.configFrom.value)
  {
    ParentWins(e.fileDenylist, e.configFrom, ConfigFrom(e, store), (p: Egg) => p.fileDenylist)
  }

  // ---------------------------------------------------------------------------
  // Properties
  // ---------------------------------------------------------------------------

  /**
   * One hop only: the install script an egg inherits is its delegate's raw
   * field, and it equals the delegate's own RESOLVED script exactly when the
   * delegate would not itself have reached further (own value set, no
   * delegate, or a second delegate whose raw value is null too).
   */
  lemma InstallScriptStopsAfterOneHop(e: Egg, store: EggStore)
    requires e.scriptInstall.None? && e.copyScriptFrom.Some? && e.copyScriptFrom.value in store
    ensures var p := store[e.copyScriptFrom.value];
      && CopyScriptInstall(e, store) == Resolved(p.scriptInstall)
      && (CopyScriptInstall(e, store) == CopyScriptInstall(p, store) <==>
            || p.scriptInstall.Some?
            || p.copyScriptFrom.None?
            || (p.copyScriptFrom.value in store && store[p.copyScriptFrom.value].scriptInstall.None?))
  {
  }

  /** A concrete chain: the grandparent's script is not reached. */
  lemma ChainIsNotFollowed(e: Egg, store: EggStore, x: string)
    requires e.scriptInstall.None? && e.copyScriptFrom.Some? && e.copyScriptFrom.value in store
    requires store[e.copyScriptFrom.value].scriptInstall.None?
    requires var p := store[e.copyScriptFrom.value];
      p.copyScriptFrom.Some? && p.copyScriptFrom.value in store &&
      store[p.copyScriptFrom.value].scriptInstall == Some(x)
    ensures CopyScriptInstall(e, store) == Resolved(None)
    ensures CopyScriptInstall(store[e.copyScriptFrom.value], store) == Resolved(Some(x))
  {
  }

  /** An empty feature list is a value, not null: it blocks inheritance. */
  lemma EmptyFeaturesBlockInheritance(e: Egg, store: EggStore)
    requires e.features == Some([])
    ensures InheritFeatures(e, store) == Resolved(Some([]))
  {
  }

  /**
   * The asymmetry between `features` and `file_denylist`: with a configured
   * parent and both own values set, features keep the egg's value while the
   * denylist takes the parent's.
   */
  lemma DenylistAsymmetry(e: Egg, store: EggStore)
    requires e.configFrom.Some? && e.configFrom.value in store
    requires e.features.Some? && e.fileDenylist.Some?
    ensures InheritFeatures(e, store) == Resolved(e.features)
    ensures InheritFileDenylist(e, store) == Resolved(store[e.configFrom.value].fileDenylist)
  {
  }

  /** With a config parent, the egg's own denylist has no influence at all. */
  lemma DenylistIgnoresOwnValue(e: Egg, store: EggStore, own: Option<seq<string>>)
    requires e.configFrom.Some?
    ensures InheritFileDenylist(e.(fileDenylist := own), store) == InheritFileDenylist(e, store)
  {
  }

  /** Two stores that agree on what `ref` names. */
  ghost predicate AgreeOn(ref: Option<EggId>, s1: EggStore, s2: EggStore)
  {
    ref.Some? ==> (ref.value in s1 <==> ref.value in s2) && (ref.value in s1 ==> s1[ref.value] == s2[ref.value])
  }

  /** The script accessors read nothing of the store but the egg named by `copy_script_from`. */
  lemma ScriptResolutionReadsOnlyDelegate(e: Egg, s1: EggStore, s2: EggStore)
    requires AgreeOn(e.copyScriptFrom, s1, s2)
    ensures CopyScriptInstall(e, s1) == CopyScriptInstall(e, s2)
    ensures CopyScriptEntry(e, s1) == CopyScriptEntry(e, s2)
    ensures CopyScriptContainer(e, s1) == CopyScriptContainer(e, s2)
  {
  }

  /** The config accessors read nothing of the store but the egg named by `config_from`. */
  lemma ConfigResolutionReadsOnlyDelegate(e: Egg, s1: EggStore, s2: EggStore)
    requires AgreeOn(e.configFrom, s1, s2)
    ensures InheritConfigFiles(e, s1) == InheritConfigFiles(e, s2)
    ensures InheritConfigStartup(e, s1) == InheritConfigStartup(e, s2)
    ensures InheritConfigStop(e, s1) == InheritConfigStop(e, s2)
    ensures InheritFeatures(e, s1) == InheritFeatures(e, s2)
    ensures InheritFileDenylist(e, s1) == InheritFileDenylist(e, s2)
  {
  }

  /** A stored egg that names itself as its delegate resolves to its own values: a cycle is harmless. */
  lemma SelfDelegationYieldsOwnValues(e: Egg, store: EggStore)
    requires e.id in store && store[e.id] == e
    requires e.copyScriptFrom == Some(e.id) && e.configFrom == Some(e.id)
    ensures CopyScriptInstall(e, store) == Resolved(e.scriptInstall)
    ensures CopyScriptEntry(e, store) == Resolved(e.scriptEntry)
    ensures CopyScriptContainer(e, store) == Resolved(e.scriptContainer)
    ensures InheritConfigFiles(e, store) == Resolved(e.configFiles)
    ensures InheritConfigStartup(e, store) == Resolved(e.configStartup)
    ensures InheritConfigStop(e, store) == Resolved(e.configStop)
    ensures InheritFeatures(e, store) == Resolved(e.features)
    ensures InheritFileDenylist(e, store) == Resolved(e.fileDenylist)
  {
  }

  /** Each field resolves independently: changing another field of the egg changes no script result. */
  lemma ScriptFieldsIndependent(e: Egg, store: EggStore, install: Option<string>)
    ensures CopyScriptEntry(e.(scriptInstall := install), store) == CopyScriptEntry(e, store)
    ensures CopyScriptContainer(e.(scriptInstall := install), store) == CopyScriptContainer(e, store)
  {
  }

  /** The scenario of a child egg with no install script copying "./start.sh" from its parent. */
  lemma InheritedStartScript(e: Egg, store: EggStore)
    requires e.scriptInstall.None? && e.copyScriptFrom.Some? && e.copyScriptFrom.value in store
    requires store[e.copyScriptFrom.value].scriptInstall == Some("./start.sh")
    ensures CopyScriptInstall(e, store) == Resolved(Some("./start.sh"))
  {
  }
}
