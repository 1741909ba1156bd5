# Activity selector model

A Dafny model of the activity selector of `lca2rmnd`, the part of the project that
decides which inventory activities stand for a technology. It has two operations:

- `create_expr` turns a declarative filter/mask specification into a query
  predicate over the activity table.
  - The filter and the mask may each be a bare string, a bare list of strings, or a
    dictionary from field name to a string or a list. A bare string or list means
    the `name` field.
  - The values of one filter field are OR-ed. Each one is a prefix match, or an
    equality when `filter_exact` is set.
  - The values of one mask field are AND-ed, and each is negated. Each one means
    "does not contain", or "is not equal" when `mask_exact` is set.
  - Every field's group is AND-ed onto the literal `True`. The key
    `reference product` addresses the `product` column.
- `select` restricts such a predicate to one database and, when a location list is
  non-empty, to those locations. It then returns the matching rows of the table.

Files:

- `wrappers.dfy`: `Option` and `Result`.
- `inventory.dfy`: the activity row (`name`, `product`, `location`, `database`),
  the column lookup by attribute name, and substring search.
- `query.dfy`: the predicate type `Pred`, standing for the query builder's
  comparisons and its `&`, `|` and `~` operators, with its meaning `Eval` on a row.
- `activity_select.dfy`: the compiler and the selector, their specification and
  the lemmas.
  - `CreateExpr` rejects an empty filter and then calls the loop method `Accumulate`
    twice: once over the filter fields, starting from `True`, and once over the mask
    fields, starting from that result. `Accumulate` holds the one loop that both of
    the source's loops share. `CreateExpr` is proved equal to the pure fold `Compile`.
  - `Compile` is related, by the lemmas, to `Holds`/`HoldsAll`, an independent
    statement of what a specification means for one row.
  - Errors are values of `Error` rather than exceptions:
    - `EmptyFilter` is the failed assertion on an empty filter dictionary.
    - `EmptyValueList` is the `reduce` of an empty list, which has no initial value.
    - `UnknownField` is the attribute lookup of a field the table lacks.

Edge cases, modelled as the code handles them:

- Only an empty filter DICTIONARY is rejected by the emptiness assertion.
  - A bare empty string is accepted. Without `filter_exact` it becomes a prefix
    match on `""`, which every name passes. With `filter_exact` it becomes
    `name == ""`, which only rows with an empty name pass.
  - A bare empty list becomes `{"name": []}`. It passes the assertion and then fails
    in `reduce`.
- An empty mask dictionary adds no condition. A bare empty mask list fails in
  `reduce`, just as a filter one does.
- When a field's list is empty, the `reduce` error comes before any column lookup.
  So `EmptyValueList` is reported even for an unknown field.
- `UnknownField` carries the field after the `reference product` rewrite, the name
  the attribute lookup fails on.
- The `reduce` error names no field in the source. The field that `EmptyValueList`
  carries (after the rewrite) is the model's addition, so that callers can tell
  which entry failed.

## Model

| member | source | states |
|---|---|---|
| `ActivitySelect.CreateExpr` | lca2rmnd/activity_select.py:13-80 | The loops over filter fields and then mask fields build exactly `Compile`: the first failing field's error, or `True` AND-ed with every field's group in dictionary order. An empty filter dictionary is rejected before any loop runs. |
| `ActivitySelect.Accumulate` | lca2rmnd/activity_select.py:59-79 | The loop shared by the filter and the mask computes exactly `Fold`. Each field's group is AND-ed onto the predicate so far, and the first field that raises ends the loop with its error. |
| `ActivitySelect.CompileMeaning` | lca2rmnd/activity_select.py:37-80 | A compiled specification admits a row iff the row passes every filter field and every mask field. The starting `True` adds nothing. |
| `ActivitySelect.CompileOutcome` | lca2rmnd/activity_select.py:57-79 | Compilation succeeds iff the filter has at least one field and no filter or mask field has an empty list or an unknown column. An empty filter gives `EmptyFilter`. Otherwise the error is the first faulty filter field's, then the first faulty mask field's. |
| `ActivitySelect.AnyOfMeaning` | lca2rmnd/activity_select.py:45-49 | The left OR-fold of one filter field's terms holds iff the column starts with at least one listed value, or equals one when exact. |
| `ActivitySelect.NoneOfMeaning` | lca2rmnd/activity_select.py:51-55 | The left AND-fold of one mask field's negated terms holds iff the column contains none of the values, or equals none of them when exact. |
| `ActivitySelect.GroupMeaning` | lca2rmnd/activity_select.py:61-79 | One field's compiled group means exactly `Holds`: some value matches (filter) or every value is avoided (mask). A single non-list string is the one-value case. |
| `ActivitySelect.FoldMeaning` | lca2rmnd/activity_select.py:60-79 | AND-ing the field groups onto a starting predicate admits a row iff the start does and every field holds. |
| `ActivitySelect.FoldOutcome` | lca2rmnd/activity_select.py:61-79 | Accumulating field groups fails iff some field has an empty list or an unknown column, and then with the first such field's error. |
| `ActivitySelect.FoldErrPersists` | lca2rmnd/activity_select.py:68-79 | Once a field raises, the whole accumulation fails with that error: no later field is reached. |
| `ActivitySelect.BareSpecIsNameField` | lca2rmnd/activity_select.py:40-43 | A bare string or list, as filter or as mask, compiles exactly like `{"name": <it>}`. |
| `ActivitySelect.EmptyFilterRejected` | lca2rmnd/activity_select.py:57 | An empty filter dictionary is rejected, whatever the mask. |
| `ActivitySelect.EmptyMaskAddsNothing` | lca2rmnd/activity_select.py:71-79 | With an empty mask dictionary, compilation succeeds iff the filter compiles, and the result admits exactly the rows that pass every filter field. |
| `ActivitySelect.MaskNarrows` | lca2rmnd/activity_select.py:71-79 | Adding mask fields can only remove rows: whatever passes the larger mask passes the smaller one, and the smaller one compiles too. |
| `ActivitySelect.FilterNarrows` | lca2rmnd/activity_select.py:60-69 | Filter fields are AND-ed: adding filter fields can only remove rows. |
| `ActivitySelect.ReferenceProductIsProduct` | lca2rmnd/activity_select.py:63-74 | No column is named `reference product`, yet that key compiles exactly as `product` in any position of the filter or of the mask. |
| `ActivitySelect.CompileSameFields` | lca2rmnd/activity_select.py:61-79 | Two dictionaries whose keys name the same columns, position by position, with the same conditions compile alike, as filter or as mask. |
| `Inventory.ColumnNamed` | lca2rmnd/activity_select.py:47-55 | The attribute lookup `getattr(Act, field)` finds the column with that attribute name, or none when no column has it. |
| `Inventory.ContainsIffOccurs` | lca2rmnd/activity_select.py:55 | The `contains` test holds iff the value occurs at some position of the column text. |
| `ActivitySelect.RestrictMeaning` | lca2rmnd/activity_select.py:95-98 | The restricted expression admits a row iff `expr` does and the row's database is `db.name`. When `locs` is non-empty, the row's location must also be listed. |
| `ActivitySelect.Filter` | lca2rmnd/activity_select.py:98 | Running a predicate over the table keeps each satisfying row as often as it occurs and drops every other row. |
| `ActivitySelect.SelectMembers` | lca2rmnd/activity_select.py:82-98 | `select` returns exactly the table rows of database `db.name` that satisfy `expr`. When `locs` is non-empty, their location must also be listed; when it is empty, no location condition applies. |
| `ActivitySelect.SelectLocsNarrow` | lca2rmnd/activity_select.py:95-98 | A location list only narrows a selection. The restricted result is a sub-multiset of the unrestricted one, and each of its rows is in a listed location. |

## Left out

- Text matching: `startswith` and `contains` are modelled as a plain sequence prefix and substring test on `string`. The database's `LIKE`/`GLOB` semantics are not modelled: no case folding, and `%` or `_` in a value are not wildcards.
- NULL columns are not modelled: every column of a row is a string.
- Row identity and order: the table is a sequence of row values, and results are stated as membership and multiplicity only. The row order of the query is not modelled. Two rows with equal `name`, `product`, `location` and `database` are not told apart, because the opaque row key is not modelled.
- Other table attributes: only the `name`, `product`, `location` and `database` columns are modelled. A key naming any other attribute of the table (the row key, the pickled data, the type column, or a method of the model class) is reported as `UnknownField`. The table's definition is not part of this model.
- Python value types: the `type(...) == list`/`str` tests are modelled by the `Spec` and `Condition` datatypes. A non-list condition is always a string, so numbers, tuples and other values are not modelled. `assert type(locs) == list` is enforced by the type `seq<string>`.
- Assertions: both `assert` statements are assumed to be enabled. Python drops them under `-O`. Without the assertion at line 57, `create_expr(fltr={})` returns `True`, possibly AND-ed with the mask groups, and `select` then admits every row of the database that passes the mask. Without the assertion at line 95, a non-list `locs` is not rejected. Neither case is modelled: `CreateExpr` always reports `EmptyFilter`, and `locs` is always a `seq<string>`.
- Default arguments: `CreateExpr` takes all four arguments. The default `{}` filter and mask are `ByField([])`.
- Dictionary keys: a dictionary is a sequence of entries in insertion order, and its keys are not required to be distinct. No stated property depends on key uniqueness.
- Laziness: `select` returns a query object that the database evaluates later. `Select` returns the rows that evaluation yields.
- `lca2rmnd/prepare_inventories.py`, `lca2rmnd/data_collection.py` and `runme.py`: database import and merge, interactive prompts, file and dataframe I/O, and scoring-engine calls. These are not part of this model.
- `lca2rmnd/reporting.py` is an unfinished stub that refers to undefined names. It contains no supplier-share, location-fallback or blend logic, so none is modelled.
