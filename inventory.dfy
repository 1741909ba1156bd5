/**
 * The inventory's activity table, as far as the selector can name it: one row per
 * activity, with the text columns a filter or mask can address.
 */
module Inventory {
  import opened Wrappers

  /** One row of the activity table. */
  datatype Activity = Activity(name: string, product: string, location: string, database: string)

  /** The columns a filter or mask field may name. */
  datatype Column = Name | Product | Location | Database {
    /** The attribute name under which the table exposes this column. */
    function Key(): string {
      match this
      case Name => "name"
      case Product => "product"
      case Location => "location"
      case Database => "database"
    }
  }

  /** The value of column `c` in row `a`. */
  function Get(a: Activity, c: Column): string {
    match c
    case Name => a.name
    case Product => a.product
    case Location => a.location
    case Database => a.database
  }

  /** Attribute lookup on the table: the column whose attribute name is `key`, if any. */
  function ColumnNamed(key: string): (r: Option<Column>)
    ensures r.Some? ==> r.value.Key() == key
    ensures r.None? ==> forall c: Column :: c.Key() != key
  {
    if key == "name" then Some(Name)
    else if key == "product" then Some(Product)
    else if key == "location" then Some(Location)
    else if key == "database" then Some(Database)
    else None
  }

  /** Looking a column up by its own attribute name finds that column. */
  lemma ColumnNamedKey(c: Column)
    ensures ColumnNamed(c.Key()) == Some(c)
  {
  }

  /** `sub` occurs somewhere in `s`: a substring search, the `contains` of a text column. */
  function Contains(s: string, sub: string): bool
    decreases |s|
  {
    sub <= s || (|s| > 0 && Contains(s[1..], sub))
  }

  /** `Contains` agrees with the positional definition: some suffix of `s` starts with `sub`. */
  lemma {:induction false} ContainsIffOccurs(s: string, sub: string)
    ensures Contains(s, sub) <==> exists i :: 0 <= i <= |s| && sub <= s[i..]
  {
    if |s| == 0 {
      if exists i :: 0 <= i <= |s| && sub <= s[i..] {
        var i :| 0 <= i <= |s| && sub <= s[i..];
        assert s[i..] == s;
      }
    } else {
      ContainsIffOccurs(s[1..], sub);
      if Contains(s, sub) {
        if sub <= s {
          assert s[0..] == s;
        } else {
          var i :| 0 <= i <= |s[1..]| && sub <= s[1..][i..];
          assert s[1..][i..] == s[i + 1..];
        }
      }
      if exists i :: 0 <= i <= |s| && sub <= s[i..] {
        var i :| 0 <= i <= |s| && sub <= s[i..];
        if i == 0 {
          assert s[i..] == s;
        } else {
          assert s[i..] == s[1..][i - 1..];
        }
      }
    }
  }
}
