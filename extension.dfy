/**
 * The action extension's two screens: the editor (`ActionViewController`)
 * and the table of saved code (`SavedCodeTableViewController`), which reports
 * selections and deletions back to the editor as its delegate.
 *
 * Presentation (alerts, menus, navigation) is reduced to the decisions it
 * leads to: the user's answer to a confirmation is a `bool` parameter, and
 * the text typed into the name field is an `Option<string>`. The user
 * defaults and the extension context are fields: `defaults` holds what is
 * stored, `completions` records how the request was completed.
 */
module Extension {
  import opened Optional
  import opened TextSplit
  import opened CodeSnippets
  import opened HostBridge
  import opened SavedCodeStore
  import opened StringOrder
  import opened SavedCodeList

  class ActionViewController {
    /** The editor's text (`script.text`); `None` when the text view reports none. */
    var script: Option<string>
    var pageTitle: string
    var pageURL: string
    var codeSnippets: seq<CodeSnippet>
    var savedCode: map<string, string>
    /** The standard user defaults. */
    var defaults: Defaults
    /** Every `completeRequest` made on the extension context, in order. */
    var completions: seq<Completion>

    constructor (text: Option<string>, defaults: Defaults)
      ensures script == text && pageTitle == "" && pageURL == ""
      ensures codeSnippets == [] && savedCode == map[]
      ensures this.defaults == defaults && completions == []
    {
      script := text;
      pageTitle, pageURL := "", "";
      codeSnippets := [];
      savedCode := map[];
      this.defaults := defaults;
      completions := [];
    }

    /**
     * The completion handler of `loadItem`: when the item carries the
     * preprocessing results, the page title and address are taken from them,
     * each defaulting to "" when absent or not a string; otherwise nothing
     * changes.
     */
    method ReceivePreprocessingResults(item: Option<PlistValue>)
      modifies this`pageTitle, this`pageURL
      ensures !HasResults(item) ==> pageTitle == old(pageTitle) && pageURL == old(pageURL)
      ensures HasResults(item) ==>
        var results := item.value.entries[PreprocessingResultsKey].entries;
        && pageTitle == StringOrEmpty(results, TitleKey)
        && pageURL == StringOrEmpty(results, URLKey)
    {
      var context := PageContextOf(item);
      if context.Some? {
        pageTitle := context.value.title;
        pageURL := context.value.url;
      }
    }

    /**
     * `loadCodeSnippets`: split the resource on the record marker, skip the
     * header, and append one snippet per record, in order. `resource` is the
     * bundled file's text, `None` when it cannot be found or read (then
     * nothing happens). `trap` is the enumeration index of the record whose
     * component 1 is out of range: the loop halts there, having appended the
     * records before it.
     */
    method LoadCodeSnippets(resource: Option<string>) returns (trap: Option<nat>)
      modifies this`codeSnippets
      ensures resource.None? ==> codeSnippets == old(codeSnippets) && trap.None?
      ensures resource.Some? ==>
        && codeSnippets == old(codeSnippets) + ParseCatalog(resource.value).snippets
        && trap == ParseCatalog(resource.value).trap
    {
      trap := None;
      if resource.None? {
        return;
      }
      var segments := Components(resource.value, RecordMarker);
      trap := AppendSnippets(segments);
    }

    /**
     * The loop of `loadCodeSnippets` over the split resource: every segment
     * but the first (the header) is split on ".\n" and its components 0 and 1
     * appended as a snippet, until one has no component 1.
     */
    method AppendSnippets(segments: seq<string>) returns (trap: Option<nat>)
      requires 1 <= |segments|
      modifies this`codeSnippets
      ensures codeSnippets == old(codeSnippets) + ParseFrom(segments, 1).snippets
      ensures trap == ParseFrom(segments, 1).trap
    {
      trap := None;
      ghost var whole := ParseFrom(segments, 1);
      ghost var appended: seq<CodeSnippet> := [];
      var index := 0;
      while index < |segments|
        invariant 0 <= index <= |segments|
        invariant codeSnippets == old(codeSnippets) + appended
        invariant index == 0 ==> appended == []
        invariant 0 < index ==> ResumesAt(whole, appended, segments, index)
        decreases |segments| - index
      {
        if index == 0 {
          // The header is skipped.
          assert appended + whole.snippets == whole.snippets;
          assert ResumesAt(whole, appended, segments, 1);
        } else {
          var parts := Components(segments[index], NameTerminator);
          ParseFromComponents(whole, appended, segments, index);
          if |parts| < 2 {
            // Component 1 is out of range: the loop stops here.
            trap := Some(index);
            return;
          }
          var snippet := CodeSnippet(parts[0], parts[1]);
          codeSnippets := codeSnippets + [snippet];
          appended := appended + [snippet];
        }
        index := index + 1;
      }
      assert ParseFrom(segments, index) == Parse([], None);
      assert appended + [] == appended;
    }

    /** `loadSavedCode`: take the stored dictionary if there is one, else keep the one held. */
    method LoadSavedCode()
      modifies this`savedCode
      ensures savedCode == Loaded(old(savedCode), defaults)
    {
      if CodeKey in defaults {
        match defaults[CodeKey]
        case CodeTable(table) => savedCode := table;
        case OtherValue =>
      }
    }

    /**
     * `showSavedCode`: load the stored dictionary, then open the table on a
     * copy of it, with this controller as its delegate.
     */
    method ShowSavedCode() returns (table: SavedCodeTableViewController)
      modifies this`savedCode
      ensures savedCode == Loaded(old(savedCode), defaults)
      ensures fresh(table)
      ensures table.savedCode == Some(savedCode) && table.delegate == Some(this)
      ensures table.savedCodeKeys == []
    {
      LoadSavedCode();
      table := new SavedCodeTableViewController();
      table.savedCode := Some(savedCode);
      table.delegate := Some(this);
    }

    /** `cancel`: complete the request returning no items. */
    method Cancel()
      modifies this`completions
      ensures completions == old(completions) + [NoItems]
    {
      completions := completions + [NoItems];
    }

    /** `completeRequest`: return one item whose finalize argument carries the editor's code, or the fallback. */
    method CompleteRequest()
      modifies this`completions
      ensures completions == old(completions) + [ReturnItem(FinalizeItemFor(script))]
      ensures completions[|completions| - 1].item[FinalizeArgumentKey].Keys == {CodeArgumentKey}
    {
      completions := completions + [ReturnItem(FinalizeItemFor(script))];
    }

    /**
     * `saveCode`: store the editor's text (or "" when there is none) under
     * `key`, write the whole dictionary to the defaults, and complete the
     * request.
     */
    method SaveCode(key: string)
      modifies this`savedCode, this`defaults, this`completions
      ensures savedCode == Upsert(old(savedCode), key, script.GetOr(""))
      ensures defaults == Persist(old(defaults), savedCode)
      ensures completions == old(completions) + [ReturnItem(FinalizeItemFor(script))]
    {
      savedCode := Upsert(savedCode, key, script.GetOr(""));
      defaults := Persist(defaults, savedCode);
      CompleteRequest();
    }

    /**
     * The "Save" action of `requestNameToSaveCode`. `name` is the name field's
     * text (`None`: nothing at all happens); `confirmOverwrite` is the answer
     * to the overwrite question, consulted only when the name is taken. The
     * stored dictionary is loaded first, then an empty name is rejected, a
     * taken name is saved only when confirmed, and a new name is saved.
     */
    method RequestNameToSaveCode(name: Option<string>, confirmOverwrite: bool) returns (decision: Option<SaveDecision>)
      modifies this`savedCode, this`defaults, this`completions
      ensures name.None? ==>
        && decision.None?
        && savedCode == old(savedCode) && defaults == old(defaults) && completions == old(completions)
      ensures name.Some? ==> decision == Some(Decide(name.value, Loaded(old(savedCode), old(defaults))))
      ensures name.Some? && Saves(decision.value, confirmOverwrite) ==>
        && savedCode == Upsert(Loaded(old(savedCode), old(defaults)), name.value, script.GetOr(""))
        && defaults == Persist(old(defaults), savedCode)
        && completions == old(completions) + [ReturnItem(FinalizeItemFor(script))]
      ensures name.Some? && !Saves(decision.value, confirmOverwrite) ==>
        && savedCode == Loaded(old(savedCode), old(defaults))
        && defaults == old(defaults) && completions == old(completions)
    {
      decision := None;
      if name.Some? {
        LoadSavedCode();
        decision := Some(Decide(name.value, savedCode));
        if name.value == "" {
          // "Unable to Save Code": only an alert.
        } else if name.value in savedCode {
          if confirmOverwrite {
            SaveCode(name.value);
          }
        } else {
          SaveCode(name.value);
        }
      }
    }

    /**
     * `didSelectSavedCode`, once the user has answered "Load" (`confirmed`)
     * or cancelled: the editor's text becomes `savedCode[key]`, which is
     * `None` for a key the dictionary no longer holds.
     */
    method DidSelectSavedCode(key: string, confirmed: bool)
      modifies this`script
      ensures !confirmed ==> script == old(script)
      ensures confirmed && key in savedCode ==> script == Some(savedCode[key])
      ensures confirmed && key !in savedCode ==> script.None?
    {
      if confirmed {
        script := if key in savedCode then Some(savedCode[key]) else None;
      }
    }

    /** `deleteSavedCode`: drop `key` and write the whole dictionary to the defaults. */
    method DeleteSavedCode(key: string)
      modifies this`savedCode, this`defaults
      ensures savedCode == Remove(old(savedCode), key)
      ensures defaults == Persist(old(defaults), savedCode)
    {
      savedCode := Remove(savedCode, key);
      defaults := Persist(defaults, savedCode);
    }
  }

  /** The editing style a table row is committed with. */
  datatype EditingStyle = NoEditing | Delete | Insert

  class SavedCodeTableViewController {
    /** The editor, held weakly; `None` once it is gone. */
    var delegate: Option<ActionViewController>
    /** The implicitly unwrapped dictionary handed over by the editor. */
    var savedCode: Option<map<string, string>>
    /** The row labels. */
    var savedCodeKeys: seq<string>

    constructor ()
      ensures delegate.None? && savedCode.None? && savedCodeKeys == []
    {
      delegate := None;
      savedCode := None;
      savedCodeKeys := [];
    }

    /** The objects a delegate call may change. */
    function DelegateFrame(): set<object>
      reads this
    {
      if delegate.Some? then {delegate.value} else {}
    }

    /** `viewDidLoad`: with a dictionary, the labels become its keys in ascending order. */
    method ViewDidLoad()
      modifies this`savedCodeKeys
      ensures savedCode.None? ==> savedCodeKeys == old(savedCodeKeys)
      ensures savedCode.Some? ==> KeysAligned(savedCode.value, savedCodeKeys)
    {
      if savedCode.None? {
        return;
      }
      savedCodeKeys := SortedKeys(savedCode.value.Keys);
      SortedKeysAligned(savedCode.value);
    }

    /** `numberOfRowsInSection`: the dictionary's size, which is the label count while they are aligned. */
    method NumberOfRows() returns (rows: nat)
      requires savedCode.Some?
      ensures rows == |savedCode.value|
      ensures KeysAligned(savedCode.value, savedCodeKeys) ==> rows == |savedCodeKeys|
    {
      rows := |savedCode.value|;
      if KeysAligned(savedCode.value, savedCodeKeys) {
        AlignedLength(savedCode.value, savedCodeKeys);
      }
    }

    /** `cellForRowAt`: row `row` is labelled with label `row`, a stored name while aligned. */
    method CellText(row: nat) returns (text: string)
      requires row < |savedCodeKeys|
      ensures text == savedCodeKeys[row]
      ensures savedCode.Some? && KeysAligned(savedCode.value, savedCodeKeys) ==> text in savedCode.value
    {
      text := savedCodeKeys[row];
      if savedCode.Some? && KeysAligned(savedCode.value, savedCodeKeys) {
        AlignedRowStored(savedCode.value, savedCodeKeys, row);
      }
    }

    /**
     * `didSelectRowAt`: report label `row` to the delegate, which then loads
     * that entry into the editor if the user confirms.
     */
    method DidSelectRow(row: nat, confirmed: bool) returns (key: string)
      requires row < |savedCodeKeys|
      modifies DelegateFrame()
      ensures key == savedCodeKeys[row]
      ensures delegate.Some? && confirmed && key in delegate.value.savedCode ==>
        delegate.value.script == Some(delegate.value.savedCode[key])
      ensures delegate.Some? && confirmed && key !in delegate.value.savedCode ==>
        delegate.value.script.None?
      ensures delegate.Some? && !confirmed ==> delegate.value.script == old(delegate.value.script)
      ensures delegate.Some? ==>
        && delegate.value.savedCode == old(delegate.value.savedCode)
        && delegate.value.defaults == old(delegate.value.defaults)
        && delegate.value.completions == old(delegate.value.completions)
        && delegate.value.pageTitle == old(delegate.value.pageTitle)
        && delegate.value.pageURL == old(delegate.value.pageURL)
        && delegate.value.codeSnippets == old(delegate.value.codeSnippets)
    {
      key := savedCodeKeys[row];
      if delegate.Some? {
        delegate.value.DidSelectSavedCode(key, confirmed);
      }
    }

    /**
     * Swipe-to-delete, as written: with the delete style, label `row` is the
     * key; once the user confirms, it is removed from this table's dictionary
     * and the delegate deletes it too. The labels are left as they were.
     */
    method CommitDelete(row: nat, style: EditingStyle, confirmed: bool) returns (deleted: Option<string>)
      requires style == Delete ==> row < |savedCodeKeys|
      requires style == Delete && confirmed ==> savedCode.Some?
      modifies this`savedCode, DelegateFrame()
      ensures style == Delete && confirmed ==>
        && deleted == Some(old(savedCodeKeys[row]))
        && savedCode == Some(Remove(old(savedCode.value), deleted.value))
      ensures style == Delete && confirmed && delegate.Some? ==>
        && delegate.value.savedCode == Remove(old(delegate.value.savedCode), deleted.value)
        && delegate.value.defaults == Persist(old(delegate.value.defaults), delegate.value.savedCode)
      ensures delegate.Some? ==>
        && delegate.value.script == old(delegate.value.script)
        && delegate.value.completions == old(delegate.value.completions)
        && delegate.value.pageTitle == old(delegate.value.pageTitle)
        && delegate.value.pageURL == old(delegate.value.pageURL)
        && delegate.value.codeSnippets == old(delegate.value.codeSnippets)
      ensures !(style == Delete && confirmed) ==>
        deleted.None? && savedCode == old(savedCode) && unchanged(DelegateFrame())
      ensures savedCodeKeys == old(savedCodeKeys)
    {
      deleted := None;
      if style == Delete {
        var key := savedCodeKeys[row];
        if confirmed {
          savedCode := Some(Remove(savedCode.value, key));
          if delegate.Some? {
            delegate.value.DeleteSavedCode(key);
          }
          deleted := Some(key);
        }
      }
    }

    /**
     * Swipe-to-delete with the labels kept in step: the deleted row's label
     * is removed as well, so the table stays aligned with its dictionary.
     */
    method CommitDeleteCorrected(row: nat, style: EditingStyle, confirmed: bool) returns (deleted: Option<string>)
      requires style == Delete ==> row < |savedCodeKeys|
      requires style == Delete && confirmed ==> savedCode.Some?
      modifies this`savedCode, this`savedCodeKeys, DelegateFrame()
      ensures style == Delete && confirmed ==>
        && deleted == Some(old(savedCodeKeys[row]))
        && savedCode == Some(Remove(old(savedCode.value), deleted.value))
        && savedCodeKeys == RemoveAt(old(savedCodeKeys), row)
      ensures style == Delete && confirmed && KeysAligned(old(savedCode.value), old(savedCodeKeys)) ==>
        KeysAligned(savedCode.value, savedCodeKeys)
      ensures style == Delete && confirmed && delegate.Some? ==>
        && delegate.value.savedCode == Remove(old(delegate.value.savedCode), deleted.value)
        && delegate.value.defaults == Persist(old(delegate.value.defaults), delegate.value.savedCode)
      ensures delegate.Some? ==>
        && delegate.value.script == old(delegate.value.script)
        && delegate.value.completions == old(delegate.value.completions)
        && delegate.value.pageTitle == old(delegate.value.pageTitle)
        && delegate.value.pageURL == old(delegate.value.pageURL)
        && delegate.value.codeSnippets == old(delegate.value.codeSnippets)
      ensures !(style == Delete && confirmed) ==>
        && deleted.None? && savedCode == old(savedCode) && savedCodeKeys == old(savedCodeKeys)
        && unchanged(DelegateFrame())
    {
      deleted := None;
      if style == Delete {
        var key := savedCodeKeys[row];
        if confirmed {
          if KeysAligned(savedCode.value, savedCodeKeys) {
            DeleteAtKeepsAlignment(savedCode.value, savedCodeKeys, row);
          }
          savedCode := Some(Remove(savedCode.value, key));
          savedCodeKeys := RemoveAt(savedCodeKeys, row);
          if delegate.Some? {
            delegate.value.DeleteSavedCode(key);
          }
          deleted := Some(key);
        }
      }
    }
  }

  /** The stored dictionary of the two scenarios below: two entries, "a" and "b". */
  function TwoEntries(): (m: map<string, string>)
    ensures m.Keys == {"a", "b"}
  {
    map["a" := "alert(1);", "b" := "alert(2);"]
  }

  /** The labels of the two-entry table are "a" then "b". */
  lemma TwoEntriesLabels(keys: seq<string>)
    requires KeysAligned(TwoEntries(), keys)
    ensures keys == ["a", "b"]
  {
    assert Less("a", "b");
    assert KeysAligned(TwoEntries(), ["a", "b"]);
    AlignedUnique(TwoEntries(), keys);
    AlignedUnique(TwoEntries(), ["a", "b"]);
  }

  /**
   * Open the table on two saved entries and delete row 0 ("a"), as written:
   * the table then has one row, for which the data source still answers "a",
   * no longer stored (the cell on screen shows "b" until the table reloads).
   * Tapping that row reports "a", "b" can no longer be reached, and loading
   * the row sets the editor's text to nil (`None`).
   */
  method StaleRowAfterDelete() returns (rows: nat, shown: string, stored: bool, loaded: Option<string>)
    ensures rows == 1 && shown == "a" && !stored && loaded.None?
  {
    var editor := new ActionViewController(Some("// code"), map[CodeKey := CodeTable(TwoEntries())]);
    var table := editor.ShowSavedCode();
    table.ViewDidLoad();
    TwoEntriesLabels(table.savedCodeKeys);
    assert table.delegate == Some(editor) && table.savedCode == Some(TwoEntries());
    var deleted := table.CommitDelete(0, Delete, true);
    assert deleted == Some("a") && table.delegate == Some(editor);
    assert table.savedCode == Some(Remove(TwoEntries(), "a")) && editor.savedCode == Remove(TwoEntries(), "a");
    rows := table.NumberOfRows();
    shown := table.CellText(0);
    stored := shown in table.savedCode.value;
    assert "a" !in editor.savedCode;
    var reported := table.DidSelectRow(0, true);
    assert reported == "a" && "a" !in editor.savedCode;
    loaded := editor.script;
  }

  /**
   * The same scenario with the labels kept in step: the one remaining row is
   * "b", it is stored, and loading it puts its code in the editor.
   */
  method RowFollowsDelete() returns (rows: nat, shown: string, stored: bool, loaded: Option<string>)
    ensures rows == 1 && shown == "b" && stored && loaded == Some("alert(2);")
  {
    var editor := new ActionViewController(Some("// code"), map[CodeKey := CodeTable(TwoEntries())]);
    var table := editor.ShowSavedCode();
    table.ViewDidLoad();
    TwoEntriesLabels(table.savedCodeKeys);
    assert table.delegate == Some(editor) && table.savedCode == Some(TwoEntries());
    var deleted := table.CommitDeleteCorrected(0, Delete, true);
    assert deleted == Some("a") && table.delegate == Some(editor);
    assert table.savedCode == Some(Remove(TwoEntries(), "a")) && editor.savedCode == Remove(TwoEntries(), "a");
    rows := table.NumberOfRows();
    shown := table.CellText(0);
    stored := shown in table.savedCode.value;
    assert "b" in editor.savedCode && editor.savedCode["b"] == "alert(2);";
    var reported := table.DidSelectRow(0, true);
    assert reported == "b" && editor.savedCode["b"] == "alert(2);";
    loaded := editor.script;
  }
}
