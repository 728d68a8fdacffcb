/** The manifest check of the store's `isValidManifest` action: four
    required top-level fields, each either missing, of the wrong type, or
    fine, collected into a syntax-error record in field order. */
module ManifestValidation {
  import opened JsValues

  /** A required field and the type name it is checked against. */
  datatype Field = Field(key: string, expected: string)

  /** The required fields, in the order the check visits them. */
  const RequiredFields: seq<Field> := [
    Field("name", "string"),
    Field("version", "string"),
    Field("manifest_version", "number"),
    Field("permissions", "array")
  ]

  datatype Category = MissingFields | InvalidValueTypes

  /** The failure record; `types` lists each category that occurred once. */
  datatype SyntaxError = SyntaxError(
    types: seq<Category>,
    missingFields: seq<string>,
    invalidValueTypes: seq<string>,
    isError: bool)

  /** `true` in the source, or the failure record. */
  datatype ValidationResult = Accepted | Rejected(error: SyntaxError)

  /** Which type test is applied to a present field: the one the code runs,
      or the one its field table evidently means. */
  datatype TypeTest = AsWritten | Intended

  datatype Verdict = Fine | Missing | WrongType

  /** Does value `v` pass the type test for `expected`? As written, a field
      expected to be "array" must pass `Array.isArray` AND have `typeof`
      equal to "array"; the intended test is `Array.isArray` alone. */
  predicate Conforms(v: JsVal, expected: string, test: TypeTest) {
    match test
    case AsWritten => !(expected == "array" && !IsArray(v)) && TypeOf(v) == expected
    case Intended => if expected == "array" then IsArray(v) else TypeOf(v) == expected
  }

  /** The verdict on one field: presence first, the type only when present. */
  function Classify(m: Manifest, f: Field, test: TypeTest): Verdict {
    if f.key !in m then Missing
    else if Conforms(m[f.key], f.expected, test) then Fine
    else WrongType
  }

  /** The verdict on each field of `fs`, in order. */
  function Verdicts(m: Manifest, fs: seq<Field>, test: TypeTest): seq<Verdict> {
    seq(|fs|, i requires 0 <= i < |fs| => Classify(m, fs[i], test))
  }

  /** The keys of `fs`, in order. */
  function Keys(fs: seq<Field>): seq<string> {
    seq(|fs|, i requires 0 <= i < |fs| => fs[i].key)
  }

  /** `a` is `b` with some elements left out, the rest in their order. */
  ghost predicate SubsequenceOf<T>(a: seq<T>, b: seq<T>)
    decreases |b|
  {
    if b == [] then a == []
    else
      (a != [] && a[|a| - 1] == b[|b| - 1] && SubsequenceOf(a[..|a| - 1], b[..|b| - 1]))
      || SubsequenceOf(a, b[..|b| - 1])
  }

  /** The keys of the fields whose verdict in `vs` is `v`, in field order. */
  function KeysWith(fs: seq<Field>, vs: seq<Verdict>, v: Verdict): (keys: seq<string>)
    requires |vs| == |fs|
    ensures |keys| <= |fs|
    decreases |fs|
  {
    if fs == [] then []
    else
      var n := |fs| - 1;
      var init := KeysWith(fs[..n], vs[..n], v);
      if vs[n] == v then init + [fs[n].key] else init
  }

  function CategoryOf(v: Verdict): Option<Category> {
    match v
    case Fine => None
    case Missing => Some(MissingFields)
    case WrongType => Some(InvalidValueTypes)
  }

  /** The category of every failing verdict, in order. */
  function Failures(vs: seq<Verdict>): seq<Category>
    decreases |vs|
  {
    if vs == [] then []
    else
      var init := Failures(vs[..|vs| - 1]);
      match CategoryOf(vs[|vs| - 1])
      case None => init
      case Some(c) => init + [c]
  }

  /** `s` with every element after its first occurrence dropped. */
  function Dedup(s: seq<Category>): (r: seq<Category>)
    ensures |r| <= |s|
    decreases |s|
  {
    if s == [] then []
    else
      var init := Dedup(s[..|s| - 1]);
      if s[|s| - 1] in init then init else init + [s[|s| - 1]]
  }

  /** The required fields that are not own properties of `m`, in order. */
  function MissingOf(m: Manifest, test: TypeTest): seq<string> {
    KeysWith(RequiredFields, Verdicts(m, RequiredFields, test), Missing)
  }

  /** The required fields present in `m` that fail their type test, in order. */
  function InvalidOf(m: Manifest, test: TypeTest): seq<string> {
    KeysWith(RequiredFields, Verdicts(m, RequiredFields, test), WrongType)
  }

  /** What the check returns for manifest `m` under type test `test`. */
  function Validate(m: Manifest, test: TypeTest): ValidationResult {
    if MissingOf(m, test) == [] && InvalidOf(m, test) == [] then Accepted
    else
      Rejected(SyntaxError(Dedup(Failures(Verdicts(m, RequiredFields, test))),
                           MissingOf(m, test), InvalidOf(m, test), true))
  }

  // ---------------------------------------------------------------------
  // The record as the loop builds it

  /** Reporting `key` under verdict `v`: `isError` is set, the category is
      added to `types` the first time (and its list is started afresh
      then), and the key is pushed on its list. */
  function Record(e: SyntaxError, key: string, v: Verdict): SyntaxError {
    match v
    case Fine => e
    case Missing =>
      var first := MissingFields !in e.types;
      e.(types := if first then e.types + [MissingFields] else e.types,
         missingFields := (if first then [] else e.missingFields) + [key],
         isError := true)
    case WrongType =>
      var first := InvalidValueTypes !in e.types;
      e.(types := if first then e.types + [InvalidValueTypes] else e.types,
         invalidValueTypes := (if first then [] else e.invalidValueTypes) + [key],
         isError := true)
  }

  /** The record after visiting the fields of `fs` with verdicts `vs`. */
  function Scan(fs: seq<Field>, vs: seq<Verdict>): SyntaxError
    requires |vs| == |fs|
    decreases |fs|
  {
    if fs == [] then SyntaxError([], [], [], false)
    else
      var n := |fs| - 1;
      Record(Scan(fs[..n], vs[..n]), fs[n].key, vs[n])
  }

  lemma DedupStep(s: seq<Category>, c: Category)
    ensures Dedup(s + [c]) == if c in Dedup(s) then Dedup(s) else Dedup(s) + [c]
  {
    assert (s + [c])[..|s|] == s;
  }

  /** The record the loop builds lists exactly the failing fields by
      verdict, lists each category once in order of first occurrence, and
      has `isError` set exactly when a list is non-empty; resetting a list
      when its category first appears never discards a reported field. */
  lemma {:induction false} ScanMatchesSpec(fs: seq<Field>, vs: seq<Verdict>)
    requires |vs| == |fs|
    ensures var e := Scan(fs, vs);
      && e.missingFields == KeysWith(fs, vs, Missing)
      && e.invalidValueTypes == KeysWith(fs, vs, WrongType)
      && e.types == Dedup(Failures(vs))
      && e.isError == (e.missingFields != [] || e.invalidValueTypes != [])
      && (MissingFields in e.types <==> e.missingFields != [])
      && (InvalidValueTypes in e.types <==> e.invalidValueTypes != [])
    decreases |fs|
  {
    if fs != [] {
      var n := |fs| - 1;
      ScanMatchesSpec(fs[..n], vs[..n]);
      assert vs[..n] == vs[..|vs| - 1];
      var prev := Scan(fs[..n], vs[..n]);
      assert Scan(fs, vs) == Record(prev, fs[n].key, vs[n]);
      match vs[n]
      case Fine =>
      case Missing => DedupStep(Failures(vs[..n]), MissingFields);
      case WrongType => DedupStep(Failures(vs[..n]), InvalidValueTypes);
    }
  }

  /** Running the loop over the required fields yields exactly what the
      check returns: the record when its `isError` is set, success
      otherwise. */
  lemma ScanIsValidate(m: Manifest, test: TypeTest)
    ensures var e := Scan(RequiredFields, Verdicts(m, RequiredFields, test));
      Validate(m, test) == if e.isError then Rejected(e) else Accepted
  {
    ScanMatchesSpec(RequiredFields, Verdicts(m, RequiredFields, test));
  }

  // ---------------------------------------------------------------------
  // Field classification

  /** The keys listed keep the order of the fields. */
  lemma {:induction false} KeysWithInOrder(fs: seq<Field>, vs: seq<Verdict>, v: Verdict)
    requires |vs| == |fs|
    ensures SubsequenceOf(KeysWith(fs, vs, v), Keys(fs))
    decreases |fs|
  {
    if fs != [] {
      var n := |fs| - 1;
      var init := KeysWith(fs[..n], vs[..n], v);
      KeysWithInOrder(fs[..n], vs[..n], v);
      assert Keys(fs)[..n] == Keys(fs[..n]);
      if vs[n] == v {
        assert (init + [fs[n].key])[..|init|] == init;
      }
    }
  }

  /** A key is listed under verdict `v` exactly when some field with that
      key has verdict `v`. */
  lemma {:induction false} KeysWithMember(fs: seq<Field>, vs: seq<Verdict>, v: Verdict, k: string)
    requires |vs| == |fs|
    ensures k in KeysWith(fs, vs, v) <==> exists j :: 0 <= j < |fs| && fs[j].key == k && vs[j] == v
    decreases |fs|
  {
    if fs != [] {
      var n := |fs| - 1;
      var init := KeysWith(fs[..n], vs[..n], v);
      KeysWithMember(fs[..n], vs[..n], v, k);
      if k in init {
        var j :| 0 <= j < n && fs[..n][j].key == k && vs[..n][j] == v;
        assert fs[..n][j] == fs[j] && vs[..n][j] == vs[j];
      }
      if exists j :: 0 <= j < |fs| && fs[j].key == k && vs[j] == v {
        var j :| 0 <= j < |fs| && fs[j].key == k && vs[j] == v;
        if j < n {
          assert fs[..n][j] == fs[j] && vs[..n][j] == vs[j];
          assert k in init;
        }
      }
    }
  }

  /** A list is empty exactly when no field has that verdict. */
  lemma KeysWithEmpty(fs: seq<Field>, vs: seq<Verdict>, v: Verdict)
    requires |vs| == |fs|
    ensures KeysWith(fs, vs, v) == [] <==> forall j :: 0 <= j < |vs| ==> vs[j] != v
  {
    var keys := KeysWith(fs, vs, v);
    if keys != [] {
      KeysWithMember(fs, vs, v, keys[0]);
    }
    forall j | 0 <= j < |vs| && vs[j] == v
      ensures keys != []
    {
      KeysWithMember(fs, vs, v, fs[j].key);
    }
  }

  /** No two fields of `fs` share a key. */
  ghost predicate DistinctKeys(fs: seq<Field>) {
    forall i, j :: 0 <= i < j < |fs| ==> fs[i].key != fs[j].key
  }

  lemma RequiredKeysDistinct()
    ensures DistinctKeys(RequiredFields)
  {
    assert forall i :: 0 <= i < |RequiredFields| ==> |RequiredFields[i].key| == [4, 7, 16, 11][i];
  }

  /** With distinct keys, a field's key is listed under `v` exactly when
      that field's verdict is `v`. */
  lemma KeysWithAt(fs: seq<Field>, vs: seq<Verdict>, v: Verdict, i: nat)
    requires |vs| == |fs| && DistinctKeys(fs) && i < |fs|
    ensures fs[i].key in KeysWith(fs, vs, v) <==> vs[i] == v
  {
    KeysWithMember(fs, vs, v, fs[i].key);
    if fs[i].key in KeysWith(fs, vs, v) {
      var j :| 0 <= j < |fs| && fs[j].key == fs[i].key && vs[j] == v;
      assert j == i;
    }
  }

  /** Each required field lands in the missing list exactly when it is not
      an own property, in the invalid list exactly when it is present but
      fails its type test, and never in both. */
  lemma Classification(m: Manifest, test: TypeTest, i: nat)
    requires i < |RequiredFields|
    ensures var f := RequiredFields[i];
      && (f.key in MissingOf(m, test) <==> f.key !in m)
      && (f.key in InvalidOf(m, test) <==> f.key in m && !Conforms(m[f.key], f.expected, test))
      && !(f.key in MissingOf(m, test) && f.key in InvalidOf(m, test))
  {
    var vs := Verdicts(m, RequiredFields, test);
    RequiredKeysDistinct();
    KeysWithAt(RequiredFields, vs, Missing, i);
    KeysWithAt(RequiredFields, vs, WrongType, i);
  }

  /** Both lists keep the order of the required fields. */
  lemma ListsInFieldOrder(m: Manifest, test: TypeTest)
    ensures SubsequenceOf(MissingOf(m, test), Keys(RequiredFields))
    ensures SubsequenceOf(InvalidOf(m, test), Keys(RequiredFields))
  {
    var vs := Verdicts(m, RequiredFields, test);
    KeysWithInOrder(RequiredFields, vs, Missing);
    KeysWithInOrder(RequiredFields, vs, WrongType);
  }

  // ---------------------------------------------------------------------
  // The error flag and the category list

  /** `Dedup` keeps exactly the elements of `s`, each once, and starts
      with the first element of `s`. */
  lemma {:induction false} DedupProperties(s: seq<Category>)
    ensures forall x :: x in Dedup(s) <==> x in s
    ensures forall i, j :: 0 <= i < j < |Dedup(s)| ==> Dedup(s)[i] != Dedup(s)[j]
    ensures s != [] ==> Dedup(s) != [] && Dedup(s)[0] == s[0]
    decreases |s|
  {
    if s != [] {
      var n := |s| - 1;
      DedupProperties(s[..n]);
      assert s == s[..n] + [s[n]];
      if n > 0 {
        assert s[..n][0] == s[0];
      }
    }
  }

  /** A category occurs among the failures exactly when some verdict has
      that category. */
  lemma {:induction false} FailuresMember(vs: seq<Verdict>, c: Category)
    ensures c in Failures(vs) <==> exists j :: 0 <= j < |vs| && CategoryOf(vs[j]) == Some(c)
    decreases |vs|
  {
    if vs != [] {
      var n := |vs| - 1;
      var init := Failures(vs[..n]);
      FailuresMember(vs[..n], c);
      if c in init {
        var j :| 0 <= j < n && CategoryOf(vs[..n][j]) == Some(c);
        assert vs[..n][j] == vs[j];
      }
      if exists j :: 0 <= j < |vs| && CategoryOf(vs[j]) == Some(c) {
        var j :| 0 <= j < |vs| && CategoryOf(vs[j]) == Some(c);
        if j < n {
          assert vs[..n][j] == vs[j];
          assert c in init;
        }
      }
    }
  }

  /** The first failure recorded is that of the first failing verdict. */
  lemma {:induction false} FailuresHead(vs: seq<Verdict>, i: nat)
    requires i < |vs| && vs[i] != Fine
    requires forall j :: 0 <= j < i ==> vs[j] == Fine
    ensures Failures(vs) != []
    ensures Some(Failures(vs)[0]) == CategoryOf(vs[i])
    decreases |vs|
  {
    var n := |vs| - 1;
    assert forall j :: 0 <= j < n ==> vs[..n][j] == vs[j];
    if i < n {
      FailuresHead(vs[..n], i);
    } else {
      var init := Failures(vs[..n]);
      if init != [] {
        FailuresMember(vs[..n], init[0]);
        assert false;
      }
    }
  }

  /** The record is returned exactly when some required field fails, and
      then `isError` is set and at least one of the lists is non-empty;
      otherwise the result is the success value. */
  lemma ErrorFlag(m: Manifest, test: TypeTest)
    ensures Validate(m, test).Rejected?
        <==> exists i :: 0 <= i < |RequiredFields| && Classify(m, RequiredFields[i], test) != Fine
    ensures Validate(m, test).Rejected? ==>
      var e := Validate(m, test).error;
      e.isError && (e.missingFields != [] || e.invalidValueTypes != [])
  {
    var vs := Verdicts(m, RequiredFields, test);
    assert forall i :: 0 <= i < |RequiredFields| ==> vs[i] == Classify(m, RequiredFields[i], test);
    KeysWithEmpty(RequiredFields, vs, Missing);
    KeysWithEmpty(RequiredFields, vs, WrongType);
  }

  /** In a returned record each category occurs at most once, occurs
      exactly when its list is non-empty, and the first one listed is that
      of the first failing field. */
  lemma CategoriesOnceInOrder(m: Manifest, test: TypeTest)
    ensures Validate(m, test).Rejected? ==>
      var e := Validate(m, test).error;
      && (forall a, b :: 0 <= a < b < |e.types| ==> e.types[a] != e.types[b])
      && (MissingFields in e.types <==> e.missingFields != [])
      && (InvalidValueTypes in e.types <==> e.invalidValueTypes != [])
      && (forall i :: 0 <= i < |RequiredFields| && Classify(m, RequiredFields[i], test) != Fine
            && (forall j :: 0 <= j < i ==> Classify(m, RequiredFields[j], test) == Fine)
            ==> Some(e.types[0]) == CategoryOf(Classify(m, RequiredFields[i], test)))
  {
    var vs := Verdicts(m, RequiredFields, test);
    assert forall i :: 0 <= i < |RequiredFields| ==> vs[i] == Classify(m, RequiredFields[i], test);
    ScanMatchesSpec(RequiredFields, vs);
    if Validate(m, test).Rejected? {
      forall i | 0 <= i < |RequiredFields| && vs[i] != Fine && (forall j :: 0 <= j < i ==> vs[j] == Fine)
        ensures Some(Dedup(Failures(vs))[0]) == CategoryOf(vs[i])
      {
        FailuresHead(vs, i);
        DedupProperties(Failures(vs));
      }
      DedupProperties(Failures(vs));
    }
  }

  // ---------------------------------------------------------------------
  // The code as written

  /** As written, `permissions` is reported whenever it is present, array
      or not (no value has `typeof` "array"), and is missing otherwise. */
  lemma PermissionsAlwaysFlagged(m: Manifest)
    ensures "permissions" in m ==>
      "permissions" in InvalidOf(m, AsWritten) && "permissions" !in MissingOf(m, AsWritten)
    ensures "permissions" !in m ==> "permissions" in MissingOf(m, AsWritten)
  {
    Classification(m, AsWritten, 3);
  }

  /** As written, the check never returns the success value. */
  lemma NeverValid(m: Manifest)
    ensures Validate(m, AsWritten).Rejected?
  {
    PermissionsAlwaysFlagged(m);
  }

  /** A required key that is present with value `undefined` counts as
      present: it is reported as a wrong type, not as missing. */
  lemma UndefinedIsPresent(m: Manifest, test: TypeTest, i: nat)
    requires i < |RequiredFields| && RequiredFields[i].key in m
    requires m[RequiredFields[i].key] == Undefined
    ensures RequiredFields[i].key in InvalidOf(m, test)
    ensures RequiredFields[i].key !in MissingOf(m, test)
  {
    Classification(m, test, i);
  }

  // ---------------------------------------------------------------------
  // The intended check

  /** All four required fields present with the types the field table
      names: strings, a number and an array. Extra fields are allowed. */
  ghost predicate WellFormed(m: Manifest) {
    && "name" in m && m["name"].Str?
    && "version" in m && m["version"].Str?
    && "manifest_version" in m && m["manifest_version"].Number?
    && "permissions" in m && m["permissions"].Arr?
  }

  /** With the intended array test, the success value is returned exactly
      for well-formed manifests. */
  lemma IntendedValidIff(m: Manifest)
    ensures Validate(m, Intended) == Accepted <==> WellFormed(m)
  {
    ErrorFlag(m, Intended);
    if Validate(m, Intended) == Accepted {
      assert Classify(m, RequiredFields[0], Intended) == Fine;
      assert Classify(m, RequiredFields[1], Intended) == Fine;
      assert Classify(m, RequiredFields[2], Intended) == Fine;
      assert Classify(m, RequiredFields[3], Intended) == Fine;
    }
  }
}
