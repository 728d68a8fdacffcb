/** The manifest store: the list of known rulesets and the first-visit
    flag, the actions that change them, and the manifest check. */
module Store {
  import opened JsValues
  import opened ManifestValidation
  import opened Rulesets

  class ManifestStore {
    var rulesetFilePaths: seq<RulesetEntry>
    var isFirstVisit: bool

    /** Every stored entry's file name is the last segment of its path. */
    ghost predicate Valid()
      reads this
    {
      forall e :: e in rulesetFilePaths ==> Derived(e)
    }

    /** The initial state: no rulesets, first visit. */
    constructor ()
      ensures rulesetFilePaths == [] && isFirstVisit
      ensures Valid()
    {
      rulesetFilePaths := [];
      isFirstVisit := true;
    }

    /** The `getRulesetFilePaths` getter: a plain read of the list. */
    function GetRulesetFilePaths(): (r: seq<RulesetEntry>)
      reads this
      ensures Valid() ==> forall e :: e in r ==> Derived(e)
    {
      rulesetFilePaths
    }

    method SetIsFirstVisit(value: bool)
      modifies this
      ensures isFirstVisit == value
      ensures rulesetFilePaths == old(rulesetFilePaths)
    {
      isFirstVisit := value;
    }

    method ClearRulesetFilePaths()
      modifies this
      ensures rulesetFilePaths == []
      ensures isFirstVisit == old(isFirstVisit)
      ensures Valid()
    {
      rulesetFilePaths := [];
    }

    /** Appends one entry per element of the manifest's
        `declarative_net_request.rule_resources`, in order. `threw` stands
        for the TypeError the action raises: when the manifest has no
        `declarative_net_request`, when `rule_resources` is truthy but not
        an array, or at the first element whose `path` cannot be read or
        split (the entries of the elements before it stay appended). */
    method SetRulesetFilePaths(manifest: Manifest) returns (threw: bool)
      modifies this
      ensures rulesetFilePaths == old(rulesetFilePaths) + ImportOf(manifest).entries
      ensures threw == ImportOf(manifest).threw
      ensures "declarative_net_request" !in manifest ==> threw && rulesetFilePaths == old(rulesetFilePaths)
      ensures SkipsImport(manifest) ==> !threw && rulesetFilePaths == old(rulesetFilePaths)
      ensures isFirstVisit == old(isFirstVisit)
      ensures old(Valid()) ==> Valid()
    {
      var dnr := if "declarative_net_request" in manifest then manifest["declarative_net_request"] else Undefined;
      var resources := Get(dnr, "rule_resources");
      if resources.None? {
        return true;
      }
      if !Truthy(resources.value) {
        return false;
      }
      if !resources.value.Arr? {
        return true;
      }
      threw := AppendEntries(resources.value.items);
      ImportOfDerived(manifest);
    }

    /** The `forEach` of `setRulesetFilePaths`: pushes the entry of each
        element in order, and stops with `threw` at the first element whose
        entry cannot be built. */
    method AppendEntries(items: seq<JsVal>) returns (threw: bool)
      modifies this
      ensures rulesetFilePaths == old(rulesetFilePaths) + Import(items).entries
      ensures threw == Import(items).threw
      ensures isFirstVisit == old(isFirstVisit)
    {
      ghost var attempts := Attempts(items);
      var i := 0;
      while i < |items|
        invariant 0 <= i <= |items|
        invariant !Collect(attempts[..i]).threw
        invariant rulesetFilePaths == old(rulesetFilePaths) + Collect(attempts[..i]).entries
        invariant isFirstVisit == old(isFirstVisit)
      {
        var entry := EntryFor(items[i]);
        CollectStep(attempts, i);
        if entry.None? {
          CollectAfterThrow(attempts, i + 1);
          return true;
        }
        rulesetFilePaths := rulesetFilePaths + [entry.value];
        i := i + 1;
      }
      assert attempts[..i] == attempts;
      return false;
    }

    /** Flips `isEnabled` of the first entry whose file name is
        `rulesetFileName`; with no such entry nothing changes. */
    method ToggleRulesetAvailability(rulesetFileName: string)
      modifies this
      ensures rulesetFilePaths == Toggled(old(rulesetFilePaths), rulesetFileName)
      ensures isFirstVisit == old(isFirstVisit)
      ensures old(Valid()) ==> Valid()
    {
      ghost var before := rulesetFilePaths;
      var found := FirstMatch(rulesetFilePaths, rulesetFileName);
      if found.Some? {
        var entry := rulesetFilePaths[found.value];
        rulesetFilePaths := rulesetFilePaths[found.value := entry.(isEnabled := Bool(!Truthy(entry.isEnabled)))];
      }
      if old(Valid()) {
        ToggledDerived(before, rulesetFileName);
      }
    }

    /** The `isValidManifest` action as written: each required field in
        order is recorded as missing or as mistyped, each category once, and
        the record is returned when anything was recorded. The result is
        never the success value. */
    method IsValidManifest(manifest: Manifest) returns (r: ValidationResult)
      ensures r == Validate(manifest, AsWritten)
      ensures r.Rejected?
    {
      var types: seq<Category> := [];
      var missingFields: seq<string> := [];
      var invalidValueTypes: seq<string> := [];
      var isError := false;
      var i := 0;
      ghost var verdicts := Verdicts(manifest, RequiredFields, AsWritten);
      while i < |RequiredFields|
        invariant 0 <= i <= |RequiredFields|
        invariant SyntaxError(types, missingFields, invalidValueTypes, isError)
               == Scan(RequiredFields[..i], verdicts[..i])
      {
        assert RequiredFields[..i + 1][..i] == RequiredFields[..i];
        assert verdicts[..i + 1][..i] == verdicts[..i];
        types, missingFields, invalidValueTypes, isError :=
          CheckField(manifest, RequiredFields[i], types, missingFields, invalidValueTypes, isError);
        i := i + 1;
      }
      assert RequiredFields[..i] == RequiredFields && verdicts[..i] == verdicts;
      ScanIsValidate(manifest, AsWritten);
      NeverValid(manifest);
      r := if isError then Rejected(SyntaxError(types, missingFields, invalidValueTypes, isError)) else Accepted;
    }
  }

  /** One pass of the loop of `isValidManifest`: the field is reported as
      missing when it is not an own property, else as a wrong type when it
      fails the array test or the `typeof` test. */
  method CheckField(manifest: Manifest, field: Field, types: seq<Category>,
                    missingFields: seq<string>, invalidValueTypes: seq<string>, isError: bool)
    returns (types': seq<Category>, missingFields': seq<string>, invalidValueTypes': seq<string>, isError': bool)
    ensures SyntaxError(types', missingFields', invalidValueTypes', isError')
         == Record(SyntaxError(types, missingFields, invalidValueTypes, isError),
                   field.key, Classify(manifest, field, AsWritten))
  {
    types', missingFields', invalidValueTypes', isError' := types, missingFields, invalidValueTypes, isError;
    if field.key !in manifest {
      isError' := true;
      types', missingFields' := Report(types, MissingFields, missingFields, field.key);
    } else {
      var actual := manifest[field.key];
      if field.expected == "array" && !IsArray(actual) {
        isError' := true;
        types', invalidValueTypes' := Report(types, InvalidValueTypes, invalidValueTypes, field.key);
      } else if TypeOf(actual) != field.expected {
        isError' := true;
        types', invalidValueTypes' := Report(types, InvalidValueTypes, invalidValueTypes, field.key);
      }
    }
  }

  /** Records `key` under category `c`: the category is added to `types`
      the first time, and its list is started afresh at that point. */
  method Report(types: seq<Category>, c: Category, list: seq<string>, key: string)
    returns (types': seq<Category>, list': seq<string>)
    ensures types' == if c in types then types else types + [c]
    ensures list' == (if c in types then list else []) + [key]
  {
    types', list' := types, list;
    if c !in types' {
      types' := types' + [c];
      list' := [];
    }
    list' := list' + [key];
  }

  /** Calling `setRulesetFilePaths` twice on a fresh store without clearing
      in between stores every entry twice. */
  method ImportTwice(manifest: Manifest) returns (entries: seq<RulesetEntry>)
    ensures !ImportOf(manifest).threw ==>
      entries == ImportOf(manifest).entries + ImportOf(manifest).entries
  {
    var store := new ManifestStore();
    var first := store.SetRulesetFilePaths(manifest);
    var second := store.SetRulesetFilePaths(manifest);
    entries := store.GetRulesetFilePaths();
  }
}
