/**
 * The activity selector: compiles a declarative filter/mask specification into a
 * query predicate over the activity table, and runs that predicate against one
 * database, optionally restricted to a list of locations.
 */
module ActivitySelect {
  import opened Wrappers
  import opened Inventory
  import opened Query

  /** The value given for one field: a single string, or a list of strings. */
  datatype Condition = Single(value: string) | Several(values: seq<string>)

  /** One `field: condition` pair of a filter or mask dictionary. */
  datatype Entry = Entry(key: string, cond: Condition)

  /**
   * A filter or mask as the caller passes it: a bare string, a bare list of
   * strings, or a dictionary, whose pairs are kept in insertion order.
   */
  datatype Spec = Text(value: string) | TextList(values: seq<string>) | ByField(entries: seq<Entry>)

  datatype Error =
    | EmptyFilter                    // the filter dictionary has no field
    | EmptyValueList(field: string)  // a field's list is empty: the fold over it has no first element
    | UnknownField(field: string)    // the (rewritten) field names no column of the table

  /** Whether an entry belongs to the filter (OR of matches) or to the mask (AND of non-matches). */
  datatype Mode = FilterMode | MaskMode

  /** The values of a condition; a single string is the one-value list. */
  function Values(c: Condition): seq<string> {
    match c
    case Single(v) => [v]
    case Several(vs) => vs
  }

  /** The dictionary a spec stands for: a bare string or list is keyed under "name". */
  function Entries(s: Spec): seq<Entry> {
    match s
    case Text(v) => [Entry("name", Single(v))]
    case TextList(vs) => [Entry("name", Several(vs))]
    case ByField(es) => es
  }

  /** The field key "reference product" addresses the "product" column; other keys stand for themselves. */
  function Alias(key: string): string {
    if key == "reference product" then "product" else key
  }

  /** One filter term: prefix match, or equality when `exact`. */
  function Sel(c: Column, v: string, exact: bool): Pred {
    if exact then Eq(c, v) else StartsWith(c, v)
  }

  /** One mask term: "does not contain", or inequality when `exact`. */
  function Unsel(c: Column, v: string, exact: bool): Pred {
    if exact then Ne(c, v) else Not(Includes(c, v))
  }

  /** The filter terms of `vals`, folded from the left with `|`. */
  function AnyOf(c: Column, vals: seq<string>, exact: bool): Pred
    requires |vals| > 0
    decreases |vals|
  {
    if |vals| == 1 then Sel(c, vals[0], exact)
    else Or(AnyOf(c, vals[..|vals| - 1], exact), Sel(c, vals[|vals| - 1], exact))
  }

  /** The mask terms of `vals`, folded from the left with `&`. */
  function NoneOf(c: Column, vals: seq<string>, exact: bool): Pred
    requires |vals| > 0
    decreases |vals|
  {
    if |vals| == 1 then Unsel(c, vals[0], exact)
    else And(NoneOf(c, vals[..|vals| - 1], exact), Unsel(c, vals[|vals| - 1], exact))
  }

  /**
   * The error compiling entry `e` raises, if any. An empty list fails in the fold
   * before any column is looked up; otherwise an unknown column fails the lookup.
   */
  function Problem(e: Entry): Option<Error> {
    if |Values(e.cond)| == 0 then Some(EmptyValueList(Alias(e.key)))
    else if ColumnNamed(Alias(e.key)).None? then Some(UnknownField(Alias(e.key)))
    else None
  }

  /** The predicate for one field of the filter or of the mask. */
  function Group(e: Entry, exact: bool, mode: Mode): Result<Pred, Error> {
    match Problem(e)
    case Some(err) => Err(err)
    case None =>
      var c := ColumnNamed(Alias(e.key)).value;
      match mode
      case FilterMode => Ok(AnyOf(c, Values(e.cond), exact))
      case MaskMode => Ok(NoneOf(c, Values(e.cond), exact))
  }

  /** `start & group(entries[0]) & group(entries[1]) & ...`, stopping at the first failing entry. */
  function Fold(entries: seq<Entry>, exact: bool, mode: Mode, start: Pred): Result<Pred, Error>
    decreases |entries|
  {
    if |entries| == 0 then Ok(start)
    else
      match Fold(entries[..|entries| - 1], exact, mode, start)
      case Err(err) => Err(err)
      case Ok(p) =>
        match Group(entries[|entries| - 1], exact, mode)
        case Err(err) => Err(err)
        case Ok(g) => Ok(And(p, g))
  }

  /** What `create_expr` computes: the filter fields, then the mask fields, AND-ed onto `True`. */
  function Compile(fltr: Spec, mask: Spec, filterExact: bool, maskExact: bool): Result<Pred, Error> {
    var fields := Entries(fltr);
    if |fields| == 0 then Err(EmptyFilter)
    else
      match Fold(fields, filterExact, FilterMode, True)
      case Err(err) => Err(err)
      case Ok(p) => Fold(Entries(mask), maskExact, MaskMode, p)
  }

  /** Once a prefix of the entries fails, the whole fold fails with the same error. */
  lemma {:induction false} FoldErrPersists(s: seq<Entry>, k: nat, exact: bool, mode: Mode, start: Pred)
    requires k <= |s|
    requires Fold(s[..k], exact, mode, start).Err?
    ensures Fold(s, exact, mode, start) == Fold(s[..k], exact, mode, start)
    decreases |s|
  {
    if k < |s| {
      var init := s[..|s| - 1];
      assert init[..k] == s[..k];
      FoldErrPersists(init, k, exact, mode, start);
    } else {
      assert s[..k] == s;
    }
  }

  /** One more entry: the fold of a longer prefix extends the shorter one by that entry's group. */
  lemma FoldStep(s: seq<Entry>, i: nat, exact: bool, mode: Mode, start: Pred, p: Pred)
    requires i < |s|
    requires Fold(s[..i], exact, mode, start) == Ok(p)
    ensures Fold(s[..i + 1], exact, mode, start)
         == match Group(s[i], exact, mode) case Err(err) => Err(err) case Ok(g) => Ok(And(p, g))
  {
    assert s[..i + 1][..i] == s[..i];
  }

  /**
   * The loop shared by the filter and the mask in `create_expr`: for each field in
   * dictionary order, AND that field's group onto the predicate built so far.
   */
  method Accumulate(entries: seq<Entry>, exact: bool, mode: Mode, start: Pred) returns (r: Result<Pred, Error>)
    ensures r == Fold(entries, exact, mode, start)
  {
    var slct := start;
    var i := 0;
    while i < |entries|
      invariant 0 <= i <= |entries|
      invariant Fold(entries[..i], exact, mode, start) == Ok(slct)
    {
      FoldStep(entries, i, exact, mode, start, slct);
      var g := Group(entries[i], exact, mode);
      if g.Err? {
        FoldErrPersists(entries, i + 1, exact, mode, start);
        return Err(g.error);
      }
      slct := And(slct, g.value);
      i := i + 1;
    }
    assert entries[..i] == entries;
    r := Ok(slct);
  }

  /**
   * `create_expr`: normalises both specs, rejects an empty filter, then accumulates
   * the filter fields onto `True` and the mask fields onto that result.
   */
  method CreateExpr(fltr: Spec, mask: Spec, filterExact: bool, maskExact: bool) returns (r: Result<Pred, Error>)
    ensures r == Compile(fltr, mask, filterExact, maskExact)
  {
    var fields := Entries(fltr);
    var masks := Entries(mask);
    if |fields| == 0 {
      return Err(EmptyFilter);
    }
    var filtered := Accumulate(fields, filterExact, FilterMode, True);
    if filtered.Err? {
      return Err(filtered.error);
    }
    r := Accumulate(masks, maskExact, MaskMode, filtered.value);
  }

  /** `expr`, restricted to the locations `locs` when that list is non-empty, and to database `dbName`. */
  function Restrict(expr: Pred, dbName: string, locs: seq<string>): Pred {
    var located := if |locs| > 0 then And(expr, In(Location, locs)) else expr;
    And(located, Eq(Database, dbName))
  }

  /** The rows of `table` that satisfy `p`, each as often as it occurs in `table`. */
  function Filter(table: seq<Activity>, p: Pred): (r: seq<Activity>)
    ensures forall x :: multiset(r)[x] == if Eval(p, x) then multiset(table)[x] else 0
    decreases |table|
  {
    if table == [] then []
    else
      assert table == [table[0]] + table[1..];
      (if Eval(p, table[0]) then [table[0]] else []) + Filter(table[1..], p)
  }

  /** `select`: the rows of the activity table that the restricted expression admits. */
  function Select(table: seq<Activity>, dbName: string, expr: Pred, locs: seq<string>): seq<Activity> {
    Filter(table, Restrict(expr, dbName, locs))
  }

  // ---------------------------------------------------------------------------
  // The meaning of a specification, stated independently of the predicate tree.

  /** The filter's per-value test: `s` starts with `v`, or equals it when exact. */
  predicate MatchesValue(s: string, v: string, exact: bool) {
    if exact then s == v else v <= s
  }

  /** The mask's per-value test: `s` does not contain `v`, or differs from it when exact. */
  predicate AvoidsValue(s: string, v: string, exact: bool) {
    if exact then s != v else !Contains(s, v)
  }

  /**
   * Row `a` passes entry `e`: as a filter field, some listed value matches the
   * field's column; as a mask field, every listed value is avoided by it.
   */
  predicate Holds(a: Activity, e: Entry, exact: bool, mode: Mode) {
    match ColumnNamed(Alias(e.key))
    case None => false
    case Some(c) =>
      match mode
      case FilterMode => exists v :: v in Values(e.cond) && MatchesValue(Get(a, c), v, exact)
      case MaskMode => forall v :: v in Values(e.cond) ==> AvoidsValue(Get(a, c), v, exact)
  }

  /** Row `a` passes every entry. */
  predicate HoldsAll(a: Activity, entries: seq<Entry>, exact: bool, mode: Mode) {
    forall e :: e in entries ==> Holds(a, e, exact, mode)
  }

  /** The error of the first entry, in dictionary order, that has one. */
  function FirstProblem(entries: seq<Entry>): Option<Error>
    decreases |entries|
  {
    if entries == [] then None
    else if Problem(entries[0]).Some? then Problem(entries[0])
    else FirstProblem(entries[1..])
  }

  /** Two entries that differ at most in a key the alias rewrites to the same field. */
  predicate SameField(e1: Entry, e2: Entry) {
    Alias(e1.key) == Alias(e2.key) && e1.cond == e2.cond
  }

  // ---------------------------------------------------------------------------
  // Lemmas.

  /** One filter field matches iff its column matches at least one listed value. */
  lemma {:induction false} AnyOfMeaning(c: Column, vals: seq<string>, exact: bool, a: Activity)
    requires |vals| > 0
    ensures Eval(AnyOf(c, vals, exact), a) <==> exists v :: v in vals && MatchesValue(Get(a, c), v, exact)
    decreases |vals|
  {
    var n := |vals|;
    var last := vals[n - 1];
    assert Eval(Sel(c, last, exact), a) == MatchesValue(Get(a, c), last, exact);
    if n == 1 {
      assert vals == [last];
    } else {
      var init := vals[..n - 1];
      AnyOfMeaning(c, init, exact, a);
      assert vals == init + [last];
      if Eval(AnyOf(c, vals, exact), a) {
        if Eval(AnyOf(c, init, exact), a) {
          var v :| v in init && MatchesValue(Get(a, c), v, exact);
          assert v in vals;
        } else {
          assert last in vals;
        }
      } else {
        forall v | v in vals ensures !MatchesValue(Get(a, c), v, exact) {
          if v !in init {
            assert v == last;
          }
        }
      }
    }
  }

  /** One mask field passes iff its column avoids every listed value. */
  lemma {:induction false} NoneOfMeaning(c: Column, vals: seq<string>, exact: bool, a: Activity)
    requires |vals| > 0
    ensures Eval(NoneOf(c, vals, exact), a) <==> forall v :: v in vals ==> AvoidsValue(Get(a, c), v, exact)
    decreases |vals|
  {
    var n := |vals|;
    var last := vals[n - 1];
    assert Eval(Unsel(c, last, exact), a) == AvoidsValue(Get(a, c), last, exact);
    if n == 1 {
      assert vals == [last];
    } else {
      var init := vals[..n - 1];
      NoneOfMeaning(c, init, exact, a);
      assert vals == init + [last];
      if Eval(NoneOf(c, vals, exact), a) {
        forall v | v in vals ensures AvoidsValue(Get(a, c), v, exact) {
          if v !in init {
            assert v == last;
          }
        }
      } else {
        if !Eval(NoneOf(c, init, exact), a) {
          var v :| v in init && !AvoidsValue(Get(a, c), v, exact);
          assert v in vals;
        } else {
          assert last in vals;
        }
      }
    }
  }

  /** A field's group fails exactly when the field has a problem, and with that problem's error. */
  lemma GroupOutcome(e: Entry, exact: bool, mode: Mode)
    ensures Group(e, exact, mode).Err? <==> Problem(e).Some?
    ensures Group(e, exact, mode).Err? ==> Group(e, exact, mode).error == Problem(e).value
  {
  }

  /** Entries naming the same field with the same condition compile to the same group. */
  lemma GroupSameField(e1: Entry, e2: Entry, exact: bool, mode: Mode)
    requires SameField(e1, e2)
    ensures Group(e1, exact, mode) == Group(e2, exact, mode)
  {
  }

  /** A compiled field group means exactly `Holds` for that field. */
  lemma GroupMeaning(e: Entry, exact: bool, mode: Mode, a: Activity)
    requires Group(e, exact, mode).Ok?
    ensures Eval(Group(e, exact, mode).value, a) <==> Holds(a, e, exact, mode)
  {
    var c := ColumnNamed(Alias(e.key)).value;
    match mode
    case FilterMode => AnyOfMeaning(c, Values(e.cond), exact, a);
    case MaskMode => NoneOfMeaning(c, Values(e.cond), exact, a);
  }

  /** A successful fold is `start` AND-ed with every entry's group. */
  lemma {:induction false} FoldMeaning(entries: seq<Entry>, exact: bool, mode: Mode, start: Pred, a: Activity)
    requires Fold(entries, exact, mode, start).Ok?
    ensures Eval(Fold(entries, exact, mode, start).value, a) <==> Eval(start, a) && HoldsAll(a, entries, exact, mode)
    decreases |entries|
  {
    if |entries| > 0 {
      var init, last := entries[..|entries| - 1], entries[|entries| - 1];
      FoldMeaning(init, exact, mode, start, a);
      GroupMeaning(last, exact, mode, a);
      assert Fold(entries, exact, mode, start) == Ok(And(Fold(init, exact, mode, start).value, Group(last, exact, mode).value));
      assert forall e :: e in entries <==> e in init || e == last;
    }
  }

  /** The first problem of a non-empty list: the first problem of all but its last entry, else that entry's. */
  lemma {:induction false} FirstProblemLast(s: seq<Entry>)
    requires |s| > 0
    ensures FirstProblem(s) == if FirstProblem(s[..|s| - 1]).Some? then FirstProblem(s[..|s| - 1]) else Problem(s[|s| - 1])
    decreases |s|
  {
    if |s| > 1 {
      assert s[1..][..|s| - 2] == s[..|s| - 1][1..];
      FirstProblemLast(s[1..]);
    }
  }

  /** The first problem is absent exactly when no entry has a problem. */
  lemma {:induction false} FirstProblemNone(entries: seq<Entry>)
    ensures FirstProblem(entries).None? <==> forall e :: e in entries ==> Problem(e).None?
    decreases |entries|
  {
    if entries != [] {
      FirstProblemNone(entries[1..]);
      assert entries == [entries[0]] + entries[1..];
    }
  }

  /** A fold fails exactly when some entry has a problem, and then with the first entry's error. */
  lemma {:induction false} FoldOutcome(entries: seq<Entry>, exact: bool, mode: Mode, start: Pred)
    ensures Fold(entries, exact, mode, start).Ok? <==> FirstProblem(entries).None?
    ensures Fold(entries, exact, mode, start).Err? ==> Fold(entries, exact, mode, start).error == FirstProblem(entries).value
    decreases |entries|
  {
    if |entries| > 0 {
      var init, last := entries[..|entries| - 1], entries[|entries| - 1];
      FoldOutcome(init, exact, mode, start);
      FirstProblemLast(entries);
      GroupOutcome(last, exact, mode);
    }
  }

  /** A compiled specification admits a row iff the row passes every filter field and every mask field. */
  lemma CompileMeaning(fltr: Spec, mask: Spec, filterExact: bool, maskExact: bool, a: Activity)
    requires Compile(fltr, mask, filterExact, maskExact).Ok?
    ensures Eval(Compile(fltr, mask, filterExact, maskExact).value, a)
        <==> HoldsAll(a, Entries(fltr), filterExact, FilterMode) && HoldsAll(a, Entries(mask), maskExact, MaskMode)
  {
    var p := Fold(Entries(fltr), filterExact, FilterMode, True).value;
    FoldMeaning(Entries(fltr), filterExact, FilterMode, True, a);
    FoldMeaning(Entries(mask), maskExact, MaskMode, p, a);
  }

  /**
   * Compilation fails exactly when the filter is empty or a filter or mask field has
   * an empty list or an unknown column; the error is the first one met, filter first.
   */
  lemma CompileOutcome(fltr: Spec, mask: Spec, filterExact: bool, maskExact: bool)
    ensures Compile(fltr, mask, filterExact, maskExact).Ok?
        <==> |Entries(fltr)| > 0
             && (forall e :: e in Entries(fltr) ==> Problem(e).None?)
             && (forall e :: e in Entries(mask) ==> Problem(e).None?)
    ensures |Entries(fltr)| == 0 ==> Compile(fltr, mask, filterExact, maskExact) == Err(EmptyFilter)
    ensures |Entries(fltr)| > 0 && FirstProblem(Entries(fltr)).Some?
        ==> Compile(fltr, mask, filterExact, maskExact) == Err(FirstProblem(Entries(fltr)).value)
    ensures |Entries(fltr)| > 0 && FirstProblem(Entries(fltr)).None? && FirstProblem(Entries(mask)).Some?
        ==> Compile(fltr, mask, filterExact, maskExact) == Err(FirstProblem(Entries(mask)).value)
  {
    FoldOutcome(Entries(fltr), filterExact, FilterMode, True);
    FirstProblemNone(Entries(fltr));
    FirstProblemNone(Entries(mask));
    if |Entries(fltr)| > 0 && FirstProblem(Entries(fltr)).None? {
      var p := Fold(Entries(fltr), filterExact, FilterMode, True).value;
      FoldOutcome(Entries(mask), maskExact, MaskMode, p);
    }
  }

  /** A bare string or list, as filter or as mask, compiles exactly like `{"name": <it>}`. */
  lemma BareSpecIsNameField(v: string, vs: seq<string>, other: Spec, filterExact: bool, maskExact: bool)
    ensures Compile(Text(v), other, filterExact, maskExact)
         == Compile(ByField([Entry("name", Single(v))]), other, filterExact, maskExact)
    ensures Compile(TextList(vs), other, filterExact, maskExact)
         == Compile(ByField([Entry("name", Several(vs))]), other, filterExact, maskExact)
    ensures Compile(other, Text(v), filterExact, maskExact)
         == Compile(other, ByField([Entry("name", Single(v))]), filterExact, maskExact)
    ensures Compile(other, TextList(vs), filterExact, maskExact)
         == Compile(other, ByField([Entry("name", Several(vs))]), filterExact, maskExact)
  {
  }

  /** An empty filter dictionary is rejected, whatever the mask. */
  lemma EmptyFilterRejected(mask: Spec, filterExact: bool, maskExact: bool)
    ensures Compile(ByField([]), mask, filterExact, maskExact) == Err(EmptyFilter)
  {
  }

  /** An empty mask dictionary is accepted and adds no condition. */
  lemma EmptyMaskAddsNothing(fltr: Spec, filterExact: bool, maskExact: bool, a: Activity)
    ensures Compile(fltr, ByField([]), filterExact, maskExact).Ok?
        <==> |Entries(fltr)| > 0 && forall e :: e in Entries(fltr) ==> Problem(e).None?
    ensures Compile(fltr, ByField([]), filterExact, maskExact).Ok?
        ==> (Eval(Compile(fltr, ByField([]), filterExact, maskExact).value, a)
             <==> HoldsAll(a, Entries(fltr), filterExact, FilterMode))
  {
    CompileOutcome(fltr, ByField([]), filterExact, maskExact);
    if Compile(fltr, ByField([]), filterExact, maskExact).Ok? {
      CompileMeaning(fltr, ByField([]), filterExact, maskExact, a);
    }
  }

  /** Adding mask fields can only remove rows from a compiled specification, never add any. */
  lemma MaskNarrows(fltr: Spec, m1: seq<Entry>, m2: seq<Entry>, filterExact: bool, maskExact: bool, a: Activity)
    requires Compile(fltr, ByField(m1 + m2), filterExact, maskExact).Ok?
    ensures Compile(fltr, ByField(m1), filterExact, maskExact).Ok?
    ensures Eval(Compile(fltr, ByField(m1 + m2), filterExact, maskExact).value, a)
        ==> Eval(Compile(fltr, ByField(m1), filterExact, maskExact).value, a)
  {
    CompileOutcome(fltr, ByField(m1 + m2), filterExact, maskExact);
    CompileOutcome(fltr, ByField(m1), filterExact, maskExact);
    CompileMeaning(fltr, ByField(m1 + m2), filterExact, maskExact, a);
    CompileMeaning(fltr, ByField(m1), filterExact, maskExact, a);
  }

  /** Adding filter fields can only remove rows too: the fields are AND-ed. */
  lemma FilterNarrows(f1: seq<Entry>, f2: seq<Entry>, mask: Spec, filterExact: bool, maskExact: bool, a: Activity)
    requires |f1| > 0
    requires Compile(ByField(f1 + f2), mask, filterExact, maskExact).Ok?
    ensures Compile(ByField(f1), mask, filterExact, maskExact).Ok?
    ensures Eval(Compile(ByField(f1 + f2), mask, filterExact, maskExact).value, a)
        ==> Eval(Compile(ByField(f1), mask, filterExact, maskExact).value, a)
  {
    CompileOutcome(ByField(f1 + f2), mask, filterExact, maskExact);
    CompileOutcome(ByField(f1), mask, filterExact, maskExact);
    CompileMeaning(ByField(f1 + f2), mask, filterExact, maskExact, a);
    CompileMeaning(ByField(f1), mask, filterExact, maskExact, a);
  }

  /** Folding entries that name the same fields with the same conditions gives the same result. */
  lemma {:induction false} FoldSameFields(s1: seq<Entry>, s2: seq<Entry>, exact: bool, mode: Mode, start: Pred)
    requires |s1| == |s2|
    requires forall i :: 0 <= i < |s1| ==> SameField(s1[i], s2[i])
    ensures Fold(s1, exact, mode, start) == Fold(s2, exact, mode, start)
    decreases |s1|
  {
    if |s1| > 0 {
      var n := |s1|;
      FoldSameFields(s1[..n - 1], s2[..n - 1], exact, mode, start);
      GroupSameField(s1[n - 1], s2[n - 1], exact, mode);
    }
  }

  /** Replacing one entry by another for the same field keeps every position naming the same field. */
  lemma ReplacedKeySameFields(pre: seq<Entry>, e1: Entry, e2: Entry, post: seq<Entry>)
    requires SameField(e1, e2)
    ensures |pre + [e1] + post| == |pre + [e2] + post|
    ensures forall i :: 0 <= i < |pre + [e1] + post| ==> SameField((pre + [e1] + post)[i], (pre + [e2] + post)[i])
  {
    var s1, s2 := pre + [e1] + post, pre + [e2] + post;
    forall i | 0 <= i < |s1| ensures SameField(s1[i], s2[i]) {
      if i < |pre| {
        assert s1[i] == s2[i] == pre[i];
      } else if i > |pre| {
        assert s1[i] == s2[i] == post[i - |pre| - 1];
      }
    }
  }

  /**
   * The key "reference product" addresses the product column, which has no
   * column of that name: in the filter and in the mask alike, it compiles exactly
   * as the key "product" does.
   */
  lemma ReferenceProductIsProduct(pre: seq<Entry>, c: Condition, post: seq<Entry>, other: Spec, filterExact: bool, maskExact: bool)
    ensures ColumnNamed("reference product").None? && ColumnNamed(Alias("reference product")) == Some(Product)
    ensures Compile(ByField(pre + [Entry("reference product", c)] + post), other, filterExact, maskExact)
         == Compile(ByField(pre + [Entry("product", c)] + post), other, filterExact, maskExact)
    ensures Compile(other, ByField(pre + [Entry("reference product", c)] + post), filterExact, maskExact)
         == Compile(other, ByField(pre + [Entry("product", c)] + post), filterExact, maskExact)
  {
    ColumnNamedKey(Product);
    ReplacedKeySameFields(pre, Entry("reference product", c), Entry("product", c), post);
    CompileSameFields(pre + [Entry("reference product", c)] + post, pre + [Entry("product", c)] + post, other, filterExact, maskExact);
  }

  /** Dictionaries naming the same fields, position by position, with the same conditions compile alike, as filter or as mask. */
  lemma CompileSameFields(s1: seq<Entry>, s2: seq<Entry>, other: Spec, filterExact: bool, maskExact: bool)
    requires |s1| == |s2|
    requires forall i :: 0 <= i < |s1| ==> SameField(s1[i], s2[i])
    ensures Compile(ByField(s1), other, filterExact, maskExact) == Compile(ByField(s2), other, filterExact, maskExact)
    ensures Compile(other, ByField(s1), filterExact, maskExact) == Compile(other, ByField(s2), filterExact, maskExact)
  {
    FoldSameFields(s1, s2, filterExact, FilterMode, True);
    match Fold(Entries(other), filterExact, FilterMode, True)
    case Err(_) =>
    case Ok(p) => FoldSameFields(s1, s2, maskExact, MaskMode, p);
  }

  /**
   * The restricted expression admits a row iff `expr` does, the row belongs to
   * database `dbName`, and, when `locs` is non-empty, its location is listed.
   */
  lemma RestrictMeaning(expr: Pred, dbName: string, locs: seq<string>, x: Activity)
    ensures Eval(Restrict(expr, dbName, locs), x)
        <==> Eval(expr, x) && x.database == dbName && (|locs| > 0 ==> x.location in locs)
  {
    var located := if |locs| > 0 then And(expr, In(Location, locs)) else expr;
    assert Eval(Eq(Database, dbName), x) == (x.database == dbName);
    if |locs| > 0 {
      assert Eval(In(Location, locs), x) == (x.location in locs);
      assert Eval(located, x) == (Eval(expr, x) && x.location in locs);
    }
  }

  /**
   * `select` returns exactly the rows of database `dbName` that satisfy `expr`, and,
   * when `locs` is non-empty, whose location is listed in `locs`.
   */
  lemma SelectMembers(table: seq<Activity>, dbName: string, expr: Pred, locs: seq<string>, x: Activity)
    ensures x in Select(table, dbName, expr, locs)
        <==> x in table && x.database == dbName && Eval(expr, x) && (|locs| > 0 ==> x.location in locs)
  {
    var r := Select(table, dbName, expr, locs);
    RestrictMeaning(expr, dbName, locs, x);
    assert multiset(r)[x] == if Eval(Restrict(expr, dbName, locs), x) then multiset(table)[x] else 0;
    assert x in r <==> multiset(r)[x] > 0;
    assert x in table <==> multiset(table)[x] > 0;
  }

  /**
   * A location list only narrows a selection: the restricted result is a
   * sub-multiset of the unrestricted one, and every row in it is in a listed location.
   */
  lemma SelectLocsNarrow(table: seq<Activity>, dbName: string, expr: Pred, locs: seq<string>)
    ensures multiset(Select(table, dbName, expr, locs)) <= multiset(Select(table, dbName, expr, []))
    ensures |locs| > 0 ==> forall x :: x in Select(table, dbName, expr, locs) ==> x.location in locs
  {
    var narrow, wide := Select(table, dbName, expr, locs), Select(table, dbName, expr, []);
    forall x ensures multiset(narrow)[x] <= multiset(wide)[x] {
      RestrictMeaning(expr, dbName, locs, x);
      RestrictMeaning(expr, dbName, [], x);
    }
    forall x | x in narrow && |locs| > 0 ensures x.location in locs {
      SelectMembers(table, dbName, expr, locs, x);
    }
  }
}
