/** Ruleset entries: how one is derived from a `rule_resources` element of
    a manifest, how a manifest's list is turned into entries, and which
    entry a toggle by file name reaches. */
module Rulesets {
  import opened JsValues

  /** One stored ruleset. `rulesetId` and `isEnabled` are copied as they
      are, so they may hold any value. */
  datatype RulesetEntry = RulesetEntry(
    rulesetFileName: string,
    rulesetFilePath: string,
    rulesetId: JsVal,
    isEnabled: JsVal)

  // ---------------------------------------------------------------------
  // File names: `path.split('/').pop()`

  /** The pieces joined back with `sep` between neighbours. */
  function Join(parts: seq<string>, sep: char): string
    requires |parts| >= 1
    decreases |parts|
  {
    if |parts| == 1 then parts[0]
    else Join(parts[..|parts| - 1], sep) + [sep] + parts[|parts| - 1]
  }

  /** `s.split(sep)` for a one-character separator: never empty, no piece
      holds the separator, and joining the pieces gives `s` back. */
  function Split(s: string, sep: char): (parts: seq<string>)
    ensures |parts| >= 1
    ensures forall i :: 0 <= i < |parts| ==> sep !in parts[i]
    ensures Join(parts, sep) == s
    decreases |s|
  {
    if s == [] then [[]]
    else
      var init := Split(s[..|s| - 1], sep);
      var c := s[|s| - 1];
      assert s == s[..|s| - 1] + [c];
      if c == sep then
        assert (init + [[]])[..|init|] == init;
        init + [[]]
      else
        var k := |init| - 1;
        var parts := init[..k] + [init[k] + [c]];
        assert parts[..k] == init[..k];
        parts
  }

  /** The file name of a path: the text after its last '/', or the whole
      path when it has none. It holds no '/', ends the path, and is either
      the whole path or comes right after a '/'. */
  function FileName(path: string): (name: string)
    ensures '/' !in name
    ensures |name| <= |path| && name == path[|path| - |name|..]
    ensures |name| == |path| || path[|path| - |name| - 1] == '/'
  {
    var parts := Split(path, '/');
    parts[|parts| - 1]
  }

  /** The three properties of `FileName` single it out: no other string
      has them all. */
  lemma FileNameUnique(path: string, name: string)
    requires '/' !in name
    requires |name| <= |path| && name == path[|path| - |name|..]
    requires |name| == |path| || path[|path| - |name| - 1] == '/'
    ensures name == FileName(path)
  {
  }

  // ---------------------------------------------------------------------
  // Deriving entries

  /** The entry pushed for one element of `rule_resources`, or None when
      building it throws: reading `path` of `undefined`/`null`, or calling
      `split` on a path that is not a string. */
  function EntryFor(ruleset: JsVal): Option<RulesetEntry> {
    match Get(ruleset, "path")
    case None => None
    case Some(path) =>
      if !path.Str? then None
      else Some(RulesetEntry(FileName(path.s), path.s,
                             Get(ruleset, "id").value, Get(ruleset, "enabled").value))
  }

  /** The store's invariant on an entry: its file name is that of its path. */
  ghost predicate Derived(e: RulesetEntry) {
    e.rulesetFileName == FileName(e.rulesetFilePath)
  }

  /** An entry built from a ruleset object copies its path, id and enabled
      flag and takes its file name from the path. */
  lemma EntryForObject(props: map<string, JsVal>, path: string)
    requires "path" in props && props["path"] == Str(path)
    ensures EntryFor(Obj(props)).Some?
    ensures var e := EntryFor(Obj(props)).value;
      && e.rulesetFilePath == path
      && e.rulesetFileName == FileName(path)
      && e.rulesetId == (if "id" in props then props["id"] else Undefined)
      && e.isEnabled == (if "enabled" in props then props["enabled"] else Undefined)
      && Derived(e)
  {
  }

  /** The entries pushed by `forEach` over `items` and whether it threw:
      elements are handled in order and the first one that throws stops
      the loop, leaving what was pushed before it. */
  datatype ImportResult = ImportResult(entries: seq<RulesetEntry>, threw: bool)

  /** What happens at each element: the entry built, or None for a throw. */
  function Attempts(items: seq<JsVal>): seq<Option<RulesetEntry>> {
    seq(|items|, k requires 0 <= k < |items| => EntryFor(items[k]))
  }

  /** Pushes the entries of `attempts` in order, up to the first throw. */
  function Collect(attempts: seq<Option<RulesetEntry>>): (r: ImportResult)
    ensures |r.entries| <= |attempts|
    decreases |attempts|
  {
    if attempts == [] then ImportResult([], false)
    else
      var prev := Collect(attempts[..|attempts| - 1]);
      if prev.threw then prev
      else
        match attempts[|attempts| - 1]
        case None => ImportResult(prev.entries, true)
        case Some(e) => ImportResult(prev.entries + [e], false)
  }

  function Import(items: seq<JsVal>): ImportResult {
    Collect(Attempts(items))
  }

  /** Entry `k` comes from attempt `k`; without a throw every attempt gave
      one, and after a throw the next attempt is the one that threw. */
  lemma {:induction false} CollectSpec(attempts: seq<Option<RulesetEntry>>)
    ensures var r := Collect(attempts);
      && (!r.threw ==> |r.entries| == |attempts|)
      && (r.threw ==> |r.entries| < |attempts| && attempts[|r.entries|].None?)
      && (forall k :: 0 <= k < |r.entries| ==> attempts[k] == Some(r.entries[k]))
    decreases |attempts|
  {
    if attempts != [] {
      var n := |attempts| - 1;
      var prev := Collect(attempts[..n]);
      CollectSpec(attempts[..n]);
      forall k | 0 <= k < n ensures attempts[..n][k] == attempts[k] { }
      if !prev.threw && attempts[n].Some? {
        var entries := prev.entries + [attempts[n].value];
        forall k | 0 <= k < |entries| ensures attempts[k] == Some(entries[k]) {
          if k < n {
            assert entries[k] == prev.entries[k];
          }
        }
      }
    }
  }

  /** Entry `k` is built from element `k`; without a throw every element
      gave one, and after a throw the next element is the one that threw. */
  lemma ImportSpec(items: seq<JsVal>)
    ensures var r := Import(items);
      && (!r.threw ==> |r.entries| == |items|)
      && (r.threw ==> |r.entries| < |items| && EntryFor(items[|r.entries|]).None?)
      && (forall k :: 0 <= k < |r.entries| ==> EntryFor(items[k]) == Some(r.entries[k]))
  {
    CollectSpec(Attempts(items));
  }

  /** One more attempt after a prefix that has not thrown: a built entry
      is pushed, a throw stops with the entries so far. */
  lemma CollectStep(attempts: seq<Option<RulesetEntry>>, i: nat)
    requires i < |attempts| && !Collect(attempts[..i]).threw
    ensures Collect(attempts[..i + 1]) ==
      match attempts[i]
      case None => ImportResult(Collect(attempts[..i]).entries, true)
      case Some(e) => ImportResult(Collect(attempts[..i]).entries + [e], false)
  {
    assert attempts[..i + 1][..i] == attempts[..i];
  }

  /** Once an attempt has thrown, the later ones are never made. */
  lemma {:induction false} CollectAfterThrow(attempts: seq<Option<RulesetEntry>>, j: nat)
    requires j <= |attempts| && Collect(attempts[..j]).threw
    ensures Collect(attempts) == Collect(attempts[..j])
    decreases |attempts| - j
  {
    if j < |attempts| {
      assert attempts[..j + 1][..j] == attempts[..j];
      CollectAfterThrow(attempts, j + 1);
    } else {
      assert attempts[..j] == attempts;
    }
  }

  /** Every imported entry satisfies the store's invariant. */
  lemma ImportDerived(items: seq<JsVal>)
    ensures forall e :: e in Import(items).entries ==> Derived(e)
  {
    var r := Import(items);
    ImportSpec(items);
    forall e | e in r.entries ensures Derived(e) {
      var k :| 0 <= k < |r.entries| && r.entries[k] == e;
      assert EntryFor(items[k]) == Some(e);
    }
  }

  /** The manifest has `declarative_net_request`, and its `rule_resources`
      can be read but is absent or falsy: the guard skips the import. */
  predicate SkipsImport(manifest: Manifest) {
    && "declarative_net_request" in manifest
    && var resources := Get(manifest["declarative_net_request"], "rule_resources");
       resources.Some? && !Truthy(resources.value)
  }

  /** What `setRulesetFilePaths(manifest)` appends, and whether it throws.
      `manifest.declarative_net_request` is read without a guard, so a
      manifest without it (or with `null`) throws; a falsy
      `rule_resources` appends nothing; a truthy one that is not an array
      has no `forEach` and throws. */
  function ImportOf(manifest: Manifest): (r: ImportResult)
    ensures "declarative_net_request" !in manifest ==> r == ImportResult([], true)
    ensures SkipsImport(manifest) ==> r == ImportResult([], false)
  {
    var dnr := if "declarative_net_request" in manifest then manifest["declarative_net_request"] else Undefined;
    match Get(dnr, "rule_resources")
    case None => ImportResult([], true)
    case Some(resources) =>
      if !Truthy(resources) then ImportResult([], false)
      else if !resources.Arr? then ImportResult([], true)
      else Import(resources.items)
  }

  /** Every entry the action appends satisfies the store's invariant. */
  lemma ImportOfDerived(manifest: Manifest)
    ensures forall e :: e in ImportOf(manifest).entries ==> Derived(e)
  {
    var dnr := if "declarative_net_request" in manifest then manifest["declarative_net_request"] else Undefined;
    var resources := Get(dnr, "rule_resources");
    if resources.Some? && resources.value.Arr? {
      ImportDerived(resources.value.items);
    }
  }

  // ---------------------------------------------------------------------
  // Toggling

  /** `find` by file name: the index of the first entry whose file name is
      `name`, or None when there is none. */
  function FirstMatch(es: seq<RulesetEntry>, name: string): (r: Option<nat>)
    ensures r.Some? ==> r.value < |es| && es[r.value].rulesetFileName == name
    ensures r.Some? ==> forall j :: 0 <= j < r.value ==> es[j].rulesetFileName != name
    ensures r.None? ==> forall j :: 0 <= j < |es| ==> es[j].rulesetFileName != name
    decreases |es|
  {
    if es == [] then None
    else if es[0].rulesetFileName == name then Some(0)
    else
      match FirstMatch(es[1..], name)
      case None => None
      case Some(i) => Some(i + 1)
  }

  /** `e.isEnabled = !e.isEnabled`: the negation of the flag's truthiness. */
  function Flip(e: RulesetEntry): RulesetEntry {
    e.(isEnabled := Bool(!Truthy(e.isEnabled)))
  }

  /** The list after toggling `name`. */
  function Toggled(es: seq<RulesetEntry>, name: string): seq<RulesetEntry> {
    match FirstMatch(es, name)
    case None => es
    case Some(i) => es[i := Flip(es[i])]
  }

  /** Toggling flips the flag of the first entry named `name` and of no
      other: the length, every other entry and the name, path and id of
      the flipped one stay as they were; with no such entry nothing
      changes. */
  lemma ToggledEffect(es: seq<RulesetEntry>, name: string)
    ensures |Toggled(es, name)| == |es|
    ensures forall j :: 0 <= j < |es| ==>
      var t := Toggled(es, name)[j];
      && t.rulesetFileName == es[j].rulesetFileName
      && t.rulesetFilePath == es[j].rulesetFilePath
      && t.rulesetId == es[j].rulesetId
    ensures forall j :: 0 <= j < |es| ==>
      Toggled(es, name)[j].isEnabled ==
        if es[j].rulesetFileName == name && (forall i :: 0 <= i < j ==> es[i].rulesetFileName != name)
        then Bool(!Truthy(es[j].isEnabled))
        else es[j].isEnabled
    ensures (forall j :: 0 <= j < |es| ==> es[j].rulesetFileName != name) ==> Toggled(es, name) == es
  {
  }

  /** Toggling keeps every entry's invariant. */
  lemma ToggledDerived(es: seq<RulesetEntry>, name: string)
    requires forall e :: e in es ==> Derived(e)
    ensures forall e :: e in Toggled(es, name) ==> Derived(e)
  {
    ToggledEffect(es, name);
    forall e | e in Toggled(es, name) ensures Derived(e) {
      var j :| 0 <= j < |Toggled(es, name)| && Toggled(es, name)[j] == e;
      assert es[j] in es;
    }
  }

  /** Toggling the same name twice restores the list when the reached
      entry's flag was a boolean; otherwise that flag ends up as the
      boolean of its truthiness. */
  lemma ToggleTwice(es: seq<RulesetEntry>, name: string)
    ensures FirstMatch(Toggled(es, name), name) == FirstMatch(es, name)
    ensures match FirstMatch(es, name)
      case None => Toggled(Toggled(es, name), name) == es
      case Some(i) =>
        Toggled(Toggled(es, name), name)
          == es[i := es[i].(isEnabled := Bool(Truthy(es[i].isEnabled)))]
    ensures (forall e :: e in es ==> e.isEnabled.Bool?) ==> Toggled(Toggled(es, name), name) == es
  {
    var t := Toggled(es, name);
    match FirstMatch(es, name)
    case None =>
    case Some(i) =>
      assert forall j :: 0 <= j < |t| ==> t[j].rulesetFileName == es[j].rulesetFileName;
      var f := FirstMatch(t, name);
      assert f == Some(i);
      if forall e :: e in es ==> e.isEnabled.Bool? {
        assert es[i] in es;
      }
  }
}
