/**
 * The saved-code store: a dictionary from names to code, kept whole in the
 * user defaults under the key "code", and the decision taken when the user
 * asks to save the editor's code under a name.
 */
module SavedCodeStore {

  /** The key under which the whole dictionary is stored. */
  const CodeKey := "code"

  /** A user-defaults value, as far as `as? Dictionary<String, String>` can tell. */
  datatype DefaultsValue = CodeTable(table: map<string, string>) | OtherValue

  /** The user defaults: key to stored value. */
  type Defaults = map<string, DefaultsValue>

  /**
   * `loadSavedCode`: the dictionary stored under "code" when there is one,
   * otherwise the dictionary already held (it is kept, not cleared).
   */
  function Loaded(current: map<string, string>, defaults: Defaults): (r: map<string, string>)
    ensures CodeKey in defaults && defaults[CodeKey].CodeTable? ==> r == defaults[CodeKey].table
    ensures CodeKey !in defaults || defaults[CodeKey].OtherValue? ==> r == current
  {
    if CodeKey in defaults && defaults[CodeKey].CodeTable? then defaults[CodeKey].table else current
  }

  /** `defaults.set(savedCode, forKey: "code")`: the whole dictionary replaces the stored one. */
  function Persist(defaults: Defaults, savedCode: map<string, string>): (r: Defaults)
    ensures r.Keys == defaults.Keys + {CodeKey}
    ensures r[CodeKey] == CodeTable(savedCode)
    ensures forall k | k in defaults && k != CodeKey :: r[k] == defaults[k]
  {
    defaults[CodeKey := CodeTable(savedCode)]
  }

  /** Loading right after persisting gives back what was persisted, whatever was held before. */
  lemma LoadAfterPersist(current: map<string, string>, defaults: Defaults, savedCode: map<string, string>)
    ensures Loaded(current, Persist(defaults, savedCode)) == savedCode
  {
  }

  /** Loading is idempotent: a second load changes nothing. */
  lemma LoadIdempotent(current: map<string, string>, defaults: Defaults)
    ensures Loaded(Loaded(current, defaults), defaults) == Loaded(current, defaults)
  {
  }

  /** `savedCode[key] = code`: `key` now maps to `code`, every other entry as before. */
  function Upsert(savedCode: map<string, string>, key: string, code: string): (r: map<string, string>)
    ensures r.Keys == savedCode.Keys + {key}
    ensures key in r && r[key] == code
    ensures forall k | k in savedCode && k != key :: r[k] == savedCode[k]
  {
    savedCode[key := code]
  }

  /** `savedCode.removeValue(forKey: key)`: `key` is gone, every other entry as before. */
  function Remove(savedCode: map<string, string>, key: string): (r: map<string, string>)
    ensures r.Keys == savedCode.Keys - {key}
    ensures forall k | k in r :: r[k] == savedCode[k]
  {
    savedCode - {key}
  }

  /** Removing an absent key is a no-op. */
  lemma RemoveAbsent(savedCode: map<string, string>, key: string)
    requires key !in savedCode
    ensures Remove(savedCode, key) == savedCode
  {
  }

  /** Saving under a new name and then deleting it restores the dictionary. */
  lemma RemoveAfterUpsert(savedCode: map<string, string>, key: string, code: string)
    requires key !in savedCode
    ensures Remove(Upsert(savedCode, key, code), key) == savedCode
  {
  }

  /** Overwriting an entry and then deleting it is the same as deleting it. */
  lemma RemoveUndoesUpsert(savedCode: map<string, string>, key: string, code: string)
    ensures Remove(Upsert(savedCode, key, code), key) == Remove(savedCode, key)
  {
  }

  /** The three ways a request to save under a name can go. */
  datatype SaveDecision =
    | RejectEmptyName   // "No name was entered."
    | AskToOverwrite    // the name is taken: save only if the user confirms
    | SaveNew           // the name is free: save at once

  /** The decision for `name`, once the stored dictionary has been loaded. */
  function Decide(name: string, savedCode: map<string, string>): (d: SaveDecision)
    ensures d == RejectEmptyName <==> name == ""
    ensures d == AskToOverwrite <==> name != "" && name in savedCode
    ensures d == SaveNew <==> name != "" && name !in savedCode
  {
    if name == "" then RejectEmptyName
    else if name in savedCode then AskToOverwrite
    else SaveNew
  }

  /** Whether the code ends up saved: never for an empty name, and for a taken name only when confirmed. */
  predicate Saves(d: SaveDecision, confirmed: bool)
  {
    d == SaveNew || (d == AskToOverwrite && confirmed)
  }

  /** A save never loses an entry: afterwards the dictionary holds every name it held before. */
  lemma SaveNeverLosesEntries(name: string, savedCode: map<string, string>, code: string, confirmed: bool)
    requires Saves(Decide(name, savedCode), confirmed)
    ensures savedCode.Keys <= Upsert(savedCode, name, code).Keys
    ensures name != "" && |Upsert(savedCode, name, code)| == |savedCode| + (if name in savedCode then 0 else 1)
  {
    if name !in savedCode {
      assert Upsert(savedCode, name, code).Keys == savedCode.Keys + {name};
    } else {
      assert Upsert(savedCode, name, code).Keys == savedCode.Keys;
    }
  }
}
