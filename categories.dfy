/**
 The category table: the form that adds a category, and the default
 categories inserted at startup.
 */
module Categories {
  import opened Records
  import opened Text

  /** The names in the table (`[cat.name for cat in Category.query.all()]`, as a set). */
  function Names(cats: seq<Category>): set<string> {
    set c | c in cats :: c.name
  }

  /** The `name` column is unique. */
  ghost predicate UniqueNames(cats: seq<Category>) {
    forall c, d :: c in cats && d in cats && c.name == d.name ==> c == d
  }

  /** The invariants of the category table: unique keys and unique names. */
  ghost predicate CategoryTable(cats: seq<Category>) {
    UniqueIds(cats, CategoryId) && UniqueNames(cats)
  }

  /** The categories form: the name is stripped; a blank or already used name is ignored. */
  function AddCategory(cats: seq<Category>, rawName: string): seq<Category> {
    var name := Strip(rawName);
    if name != "" && name !in Names(cats) then cats + [Category(NextId(cats, CategoryId), name)] else cats
  }

  /**
   The form adds the stripped name when it is not blank, keeps names and keys
   unique, and submitting the same name again changes nothing.
   */
  lemma AddCategorySpec(cats: seq<Category>, rawName: string)
    requires UniqueIds(cats, CategoryId) && UniqueNames(cats)
    ensures var after := AddCategory(cats, rawName);
      && Names(after) == Names(cats) + (if Strip(rawName) == "" then {} else {Strip(rawName)})
      && (Strip(rawName) == "" || Strip(rawName) in Names(cats) <==> after == cats)
      && UniqueIds(after, CategoryId) && UniqueNames(after)
      && AddCategory(after, rawName) == after
  {
    var name := Strip(rawName);
    var after := AddCategory(cats, rawName);
    if name != "" && name !in Names(cats) {
      var row := Category(NextId(cats, CategoryId), name);
      InsertKeepsIdsUnique(cats, row, CategoryId);
      assert row in after;
      assert Names(after) == Names(cats) + {name};
      assert after != cats by { assert |after| == |cats| + 1; }
    }
  }

  /**
   The startup loop: each name of `names` that is not in `existing` (the
   names read before the loop) is inserted, in order.
   */
  function AddMissing(cats: seq<Category>, names: seq<string>, existing: set<string>): seq<Category>
    decreases |names|
  {
    if names == [] then cats
    else
      var next := if names[0] in existing then cats else cats + [Category(NextId(cats, CategoryId), names[0])];
      AddMissing(next, names[1..], existing)
  }

  /** No name occurs twice in `names`. */
  ghost predicate DistinctNames(names: seq<string>) {
    forall i, j :: 0 <= i < j < |names| ==> names[i] != names[j]
  }

  /** The loop adds exactly the names that were missing from `existing`. */
  lemma {:induction false} AddMissingNames(cats: seq<Category>, names: seq<string>, existing: set<string>)
    ensures Names(AddMissing(cats, names, existing)) == Names(cats) + (set x | x in names && x !in existing)
    decreases |names|
  {
    if names != [] {
      var next := if names[0] in existing then cats else cats + [Category(NextId(cats, CategoryId), names[0])];
      assert Names(next) == Names(cats) + (if names[0] in existing then {} else {names[0]});
      AddMissingNames(next, names[1..], existing);
      assert names == [names[0]] + names[1..];
    }
  }

  /** The loop keeps the rows already there as a prefix and keeps keys unique. */
  lemma {:induction false} AddMissingKeepsRows(cats: seq<Category>, names: seq<string>, existing: set<string>)
    requires UniqueIds(cats, CategoryId)
    ensures var after := AddMissing(cats, names, existing);
      |cats| <= |after| && after[..|cats|] == cats && UniqueIds(after, CategoryId)
    decreases |names|
  {
    if names != [] {
      var next := if names[0] in existing then cats else cats + [Category(NextId(cats, CategoryId), names[0])];
      if names[0] !in existing {
        InsertKeepsIdsUnique(cats, Category(NextId(cats, CategoryId), names[0]), CategoryId);
      }
      AddMissingKeepsRows(next, names[1..], existing);
      var after := AddMissing(next, names[1..], existing);
      assert after[..|cats|] == after[..|next|][..|cats|];
    }
  }

  /**
   The loop keeps names unique as long as the names still to add are
   distinct and none of them is in the table without being in `existing`.
   */
  lemma {:induction false} AddMissingUniqueNames(cats: seq<Category>, names: seq<string>, existing: set<string>)
    requires UniqueNames(cats)
    requires DistinctNames(names)
    requires forall x :: x in names ==> x in existing || x !in Names(cats)
    ensures UniqueNames(AddMissing(cats, names, existing))
    decreases |names|
  {
    if names != [] {
      var next := if names[0] in existing then cats else cats + [Category(NextId(cats, CategoryId), names[0])];
      var rest := names[1..];
      assert DistinctNames(rest) by {
        forall i, j | 0 <= i < j < |rest| ensures rest[i] != rest[j] {
          assert names[i + 1] != names[j + 1];
        }
      }
      assert Names(next) <= Names(cats) + {names[0]};
      forall x | x in rest ensures x in existing || x !in Names(next) {
        var k :| 0 <= k < |rest| && rest[k] == x;
        assert names[0] != names[k + 1];
      }
      AddMissingUniqueNames(next, rest, existing);
    }
  }

  /** When every name is already present, the loop inserts nothing. */
  lemma {:induction false} AddMissingNone(cats: seq<Category>, names: seq<string>, existing: set<string>)
    requires forall k :: 0 <= k < |names| ==> names[k] in existing
    ensures AddMissing(cats, names, existing) == cats
    decreases |names|
  {
    if names != [] {
      AddMissingNone(cats, names[1..], existing);
    }
  }

  /** The category table after startup. */
  function Seeded(cats: seq<Category>): seq<Category> {
    AddMissing(cats, DefaultCategories, Names(cats))
  }

  /** The six default names are distinct: their first letters already differ. */
  lemma DefaultCategoriesDistinct()
    ensures DistinctNames(DefaultCategories)
  {
    var d := DefaultCategories;
    var firsts := [d[0][0], d[1][0], d[2][0], d[3][0], d[4][0], d[5][0]];
    assert firsts == ['و', 'پ', 'خ', 'ل', 'ا', 'د'];
  }

  /**
   Running the startup loop over distinct names with `existing` read from the
   table adds exactly the missing ones, after the rows already there, keeps
   names and keys unique, and a second run adds nothing.
   */
  lemma FillMissingSpec(cats: seq<Category>, names: seq<string>)
    requires UniqueIds(cats, CategoryId) && UniqueNames(cats)
    requires DistinctNames(names)
    ensures var after := AddMissing(cats, names, Names(cats));
      && Names(after) == Names(cats) + (set x | x in names)
      && |cats| <= |after| && after[..|cats|] == cats
      && UniqueIds(after, CategoryId) && UniqueNames(after)
      && AddMissing(after, names, Names(after)) == after
  {
    AddMissingNames(cats, names, Names(cats));
    AddMissingKeepsRows(cats, names, Names(cats));
    AddMissingUniqueNames(cats, names, Names(cats));
    var after := AddMissing(cats, names, Names(cats));
    forall k | 0 <= k < |names| ensures names[k] in Names(after) {
      assert names[k] in Names(cats) + (set x | x in names);
    }
    AddMissingNone(after, names, Names(after));
  }

  /** Startup seeding: the six default categories are present afterwards, and a second start changes nothing. */
  lemma SeededSpec(cats: seq<Category>)
    requires UniqueIds(cats, CategoryId) && UniqueNames(cats)
    ensures var after := Seeded(cats);
      && Names(after) == Names(cats) + (set x | x in DefaultCategories)
      && |cats| <= |after| && after[..|cats|] == cats
      && UniqueIds(after, CategoryId) && UniqueNames(after)
      && Seeded(after) == after
  {
    DefaultCategoriesDistinct();
    FillMissingSpec(cats, DefaultCategories);
  }
}
