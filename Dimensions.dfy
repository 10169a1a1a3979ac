/** The start-up resolution of the dimension tables (nbv2.py:503-553): every
    configured category and (category, subcategory) pair is looked up by name
    in the `categories` and `subcategories` tables, and inserted when the
    lookup finds nothing; the ids found or created fill `category_ids` and
    `subcategory_ids`, which the scraping jobs read. */
module Dimensions {
  import opened Wrappers
  import opened Sequences

  /** A row of `categories (id INT IDENTITY(1,1), name)`. */
  datatype CategoryRow = CategoryRow(id: int, name: string)

  /** A row of `subcategories (id INT IDENTITY(1,1), category_id, name)`. */
  datatype SubcategoryRow = SubcategoryRow(id: int, categoryId: int, name: string)

  /** Position of the first row called `name`, or `|rows|` when none is. */
  function CategoryIndex(rows: seq<CategoryRow>, name: string): (k: nat)
    ensures k <= |rows|
    ensures k < |rows| ==> rows[k].name == name
    decreases |rows|
  {
    if |rows| == 0 || rows[0].name == name then 0
    else 1 + CategoryIndex(rows[1..], name)
  }

  /** No row before the one found has the name. */
  lemma {:induction false} CategoryIndexFirst(rows: seq<CategoryRow>, name: string, j: nat)
    requires j < CategoryIndex(rows, name)
    ensures rows[j].name != name
    decreases |rows|
  {
    if j > 0 {
      CategoryIndexFirst(rows[1..], name, j - 1);
      assert rows[1..][j - 1] == rows[j];
    }
  }

  /** Position of the first row called `name` under `categoryId`, or `|rows|`. */
  function SubcategoryIndex(rows: seq<SubcategoryRow>, name: string, categoryId: int): (k: nat)
    ensures k <= |rows|
    ensures k < |rows| ==> rows[k].name == name && rows[k].categoryId == categoryId
    decreases |rows|
  {
    if |rows| == 0 || (rows[0].name == name && rows[0].categoryId == categoryId) then 0
    else 1 + SubcategoryIndex(rows[1..], name, categoryId)
  }

  lemma {:induction false} SubcategoryIndexFirst(rows: seq<SubcategoryRow>, name: string, categoryId: int, j: nat)
    requires j < SubcategoryIndex(rows, name, categoryId)
    ensures rows[j].name != name || rows[j].categoryId != categoryId
    decreases |rows|
  {
    if j > 0 {
      SubcategoryIndexFirst(rows[1..], name, categoryId, j - 1);
      assert rows[1..][j - 1] == rows[j];
    }
  }

  /** Some row of `rows` has identity `id`. */
  ghost predicate HasCategory(rows: seq<CategoryRow>, id: int) {
    exists j :: 0 <= j < |rows| && rows[j].id == id
  }

  /** `SELECT id FROM categories WHERE name = ?` and `fetchone()`: the
      table is read in row order. */
  function FindCategory(rows: seq<CategoryRow>, name: string): Option<int> {
    var k := CategoryIndex(rows, name);
    if k < |rows| then Some(rows[k].id) else None
  }

  /** The lookup finds nothing exactly when no row has the name, and
      otherwise the id of an existing row. */
  lemma FindCategoryMeaning(rows: seq<CategoryRow>, name: string)
    ensures FindCategory(rows, name) == None <==> forall j :: 0 <= j < |rows| ==> rows[j].name != name
    ensures FindCategory(rows, name).Some? ==> HasCategory(rows, FindCategory(rows, name).value)
  {
    var k := CategoryIndex(rows, name);
    if k == |rows| {
      forall j | 0 <= j < |rows|
        ensures rows[j].name != name
      {
        CategoryIndexFirst(rows, name, j);
      }
    } else {
      assert rows[k].id == FindCategory(rows, name).value;
    }
  }

  /** `SELECT id FROM subcategories WHERE name = ? AND category_id = ?` and
      `fetchone()`. */
  function FindSubcategory(rows: seq<SubcategoryRow>, name: string, categoryId: int): Option<int> {
    var k := SubcategoryIndex(rows, name, categoryId);
    if k < |rows| then Some(rows[k].id) else None
  }

  lemma FindSubcategoryMeaning(rows: seq<SubcategoryRow>, name: string, categoryId: int)
    ensures FindSubcategory(rows, name, categoryId) == None <==>
      forall j :: 0 <= j < |rows| ==> rows[j].name != name || rows[j].categoryId != categoryId
  {
    var k := SubcategoryIndex(rows, name, categoryId);
    if k == |rows| {
      forall j | 0 <= j < |rows|
        ensures rows[j].name != name || rows[j].categoryId != categoryId
      {
        SubcategoryIndexFirst(rows, name, categoryId, j);
      }
    }
  }

  /** Rows added after the existing ones never change what a lookup that
      already succeeded finds. */
  lemma {:induction false} CategoryIndexAppend(rows: seq<CategoryRow>, more: seq<CategoryRow>, name: string)
    ensures CategoryIndex(rows + more, name)
         == if CategoryIndex(rows, name) < |rows| then CategoryIndex(rows, name) else |rows| + CategoryIndex(more, name)
    decreases |rows|
  {
    if |rows| == 0 {
      assert rows + more == more;
    } else if rows[0].name != name {
      assert (rows + more)[0] == rows[0];
      assert (rows + more)[1..] == rows[1..] + more;
      CategoryIndexAppend(rows[1..], more, name);
    } else {
      assert (rows + more)[0] == rows[0];
    }
  }

  lemma {:induction false} SubcategoryIndexAppend(rows: seq<SubcategoryRow>, more: seq<SubcategoryRow>, name: string, categoryId: int)
    ensures SubcategoryIndex(rows + more, name, categoryId)
         == if SubcategoryIndex(rows, name, categoryId) < |rows| then SubcategoryIndex(rows, name, categoryId)
            else |rows| + SubcategoryIndex(more, name, categoryId)
    decreases |rows|
  {
    if |rows| == 0 {
      assert rows + more == more;
    } else if !(rows[0].name == name && rows[0].categoryId == categoryId) {
      assert (rows + more)[0] == rows[0];
      assert (rows + more)[1..] == rows[1..] + more;
      SubcategoryIndexAppend(rows[1..], more, name, categoryId);
    } else {
      assert (rows + more)[0] == rows[0];
    }
  }

  /** A lookup on a grown table finds what it found before, or else what it
      finds among the added rows. */
  lemma FindCategoryAppend(rows: seq<CategoryRow>, more: seq<CategoryRow>, name: string)
    ensures FindCategory(rows + more, name)
         == if FindCategory(rows, name).Some? then FindCategory(rows, name) else FindCategory(more, name)
  {
    CategoryIndexAppend(rows, more, name);
    var k := CategoryIndex(more, name);
    if CategoryIndex(rows, name) == |rows| && k < |more| {
      assert (rows + more)[|rows| + k] == more[k];
    }
  }

  lemma FindSubcategoryAppend(rows: seq<SubcategoryRow>, more: seq<SubcategoryRow>, name: string, categoryId: int)
    ensures FindSubcategory(rows + more, name, categoryId)
         == if FindSubcategory(rows, name, categoryId).Some? then FindSubcategory(rows, name, categoryId)
            else FindSubcategory(more, name, categoryId)
  {
    SubcategoryIndexAppend(rows, more, name, categoryId);
    var k := SubcategoryIndex(more, name, categoryId);
    if SubcategoryIndex(rows, name, categoryId) == |rows| && k < |more| {
      assert (rows + more)[|rows| + k] == more[k];
    }
  }

  /** The two dimension tables as the database holds them, with the next
      value of each identity column. */
  class Database {
    var categories: seq<CategoryRow>
    var subcategories: seq<SubcategoryRow>
    var nextCategoryId: int
    var nextSubcategoryId: int

    /** Identities start at 1 and grow with every insert, and every
        subcategory's `category_id` names a category (the foreign key). */
    ghost predicate Valid()
      reads this
    {
      && 1 <= nextCategoryId && 1 <= nextSubcategoryId
      && (forall i :: 0 <= i < |categories| ==> 1 <= categories[i].id < nextCategoryId)
      && (forall i, j :: 0 <= i < j < |categories| ==> categories[i].id < categories[j].id)
      && (forall i :: 0 <= i < |subcategories| ==> 1 <= subcategories[i].id < nextSubcategoryId)
      && (forall i, j :: 0 <= i < j < |subcategories| ==> subcategories[i].id < subcategories[j].id)
      && (forall i :: 0 <= i < |subcategories| ==> HasCategory(categories, subcategories[i].categoryId))
    }

    /** Freshly created tables. */
    constructor ()
      ensures Valid()
      ensures categories == [] && subcategories == []
      ensures nextCategoryId == 1 && nextSubcategoryId == 1
    {
      categories := [];
      subcategories := [];
      nextCategoryId := 1;
      nextSubcategoryId := 1;
    }

    /** `INSERT INTO categories (name) OUTPUT INSERTED.id VALUES (?)`. */
    method InsertCategory(name: string) returns (id: int)
      requires Valid()
      modifies this
      ensures Valid()
      ensures id == old(nextCategoryId) && nextCategoryId == id + 1
      ensures categories == old(categories) + [CategoryRow(id, name)]
      ensures subcategories == old(subcategories) && nextSubcategoryId == old(nextSubcategoryId)
    {
      ghost var before := categories;
      id := nextCategoryId;
      categories := categories + [CategoryRow(id, name)];
      nextCategoryId := nextCategoryId + 1;
      forall i | 0 <= i < |subcategories|
        ensures HasCategory(categories, subcategories[i].categoryId)
      {
        assert HasCategory(before, subcategories[i].categoryId);
        var j :| 0 <= j < |before| && before[j].id == subcategories[i].categoryId;
        assert categories[j] == before[j];
      }
    }

    /** `INSERT INTO subcategories (category_id, name) OUTPUT INSERTED.id
        VALUES (?, ?)`; the foreign key demands an existing category. */
    method InsertSubcategory(categoryId: int, name: string) returns (id: int)
      requires Valid() && HasCategory(categories, categoryId)
      modifies this
      ensures Valid()
      ensures id == old(nextSubcategoryId) && nextSubcategoryId == id + 1
      ensures subcategories == old(subcategories) + [SubcategoryRow(id, categoryId, name)]
      ensures categories == old(categories) && nextCategoryId == old(nextCategoryId)
    {
      id := nextSubcategoryId;
      subcategories := subcategories + [SubcategoryRow(id, categoryId, name)];
      nextSubcategoryId := nextSubcategoryId + 1;
    }
  }

  /** `ids` maps each name it holds to the first row of that name in `rows`,
      reuses every id `before` already had, and `rows` extends `before` only
      with rows for names of `ids` that `before` lacked, one per name. */
  ghost predicate CategoriesResolved(before: seq<CategoryRow>, rows: seq<CategoryRow>, ids: map<string, int>) {
    && before <= rows
    && (forall n :: n in ids ==> FindCategory(rows, n) == Some(ids[n]))
    && (forall n :: n in ids && FindCategory(before, n).Some? ==> ids[n] == FindCategory(before, n).value)
    && (forall i :: |before| <= i < |rows| ==> rows[i].name in ids && FindCategory(before, rows[i].name) == None)
    && (forall i, j :: |before| <= i < j < |rows| ==> rows[i].name != rows[j].name)
  }

  /** A name found in the table keeps its row's id. */
  lemma ReuseCategory(before: seq<CategoryRow>, rows: seq<CategoryRow>, ids: map<string, int>, name: string)
    requires CategoriesResolved(before, rows, ids) && FindCategory(rows, name).Some?
    ensures CategoriesResolved(before, rows, ids[name := FindCategory(rows, name).value])
  {
    FindCategoryAppend(before, rows[|before|..], name);
    PrefixSplit(before, rows);
  }

  /** A name missing from the table gets the row inserted for it. */
  lemma InsertedCategory(before: seq<CategoryRow>, rows: seq<CategoryRow>, ids: map<string, int>, name: string, id: int)
    requires CategoriesResolved(before, rows, ids) && FindCategory(rows, name) == None
    ensures CategoriesResolved(before, rows + [CategoryRow(id, name)], ids[name := id])
  {
    InsertKeepsLookups(before, rows, ids, name, id);
    InsertedRowIsNew(before, rows, ids, name, id);
    assert before <= rows + [CategoryRow(id, name)];
  }

  lemma InsertKeepsLookups(before: seq<CategoryRow>, rows: seq<CategoryRow>, ids: map<string, int>, name: string, id: int)
    requires CategoriesResolved(before, rows, ids) && FindCategory(rows, name) == None
    ensures name !in ids && FindCategory(before, name) == None
    ensures forall n :: n in ids[name := id] ==> FindCategory(rows + [CategoryRow(id, name)], n) == Some(ids[name := id][n])
  {
    var grown := rows + [CategoryRow(id, name)];
    forall n | n in ids
      ensures FindCategory(grown, n) == Some(ids[n])
    {
      FindCategoryAppend(rows, [CategoryRow(id, name)], n);
    }
    FindCategoryAppend(rows, [CategoryRow(id, name)], name);
    FindCategoryAppend(before, rows[|before|..], name);
    PrefixSplit(before, rows);
  }

  lemma InsertedRowIsNew(before: seq<CategoryRow>, rows: seq<CategoryRow>, ids: map<string, int>, name: string, id: int)
    requires CategoriesResolved(before, rows, ids) && FindCategory(rows, name) == None
    requires name !in ids && FindCategory(before, name) == None
    ensures var grown := rows + [CategoryRow(id, name)];
      && (forall i :: |before| <= i < |grown| ==> grown[i].name in ids[name := id] && FindCategory(before, grown[i].name) == None)
      && (forall i, j :: |before| <= i < j < |grown| ==> grown[i].name != grown[j].name)
  {
    var grown := rows + [CategoryRow(id, name)];
    forall i | |before| <= i < |grown|
      ensures grown[i].name in ids[name := id] && FindCategory(before, grown[i].name) == None
    {
      if i < |rows| {
        assert grown[i] == rows[i];
      }
    }
    forall i, j | |before| <= i < j < |grown|
      ensures grown[i].name != grown[j].name
    {
      assert grown[i] == rows[i];
      if j < |rows| {
        assert grown[j] == rows[j];
      }
    }
  }

  /** One pass of the loop's body: the lookup, then the insert when the
      lookup found nothing. */
  method GetOrCreateCategory(db: Database, name: string) returns (id: int)
    requires db.Valid()
    modifies db
    ensures db.Valid()
    ensures db.subcategories == old(db.subcategories) && db.nextSubcategoryId == old(db.nextSubcategoryId)
    ensures FindCategory(old(db.categories), name).Some? ==>
      id == FindCategory(old(db.categories), name).value && db.categories == old(db.categories)
      && db.nextCategoryId == old(db.nextCategoryId)
    ensures FindCategory(old(db.categories), name) == None ==>
      db.categories == old(db.categories) + [CategoryRow(id, name)]
      && id == old(db.nextCategoryId) && db.nextCategoryId == id + 1
  {
    var result := FindCategory(db.categories, name);
    if result.Some? {
      id := result.value;
    } else {
      id := db.InsertCategory(name);
    }
  }

  /** What a get-or-create of one name does to the resolution. */
  lemma ResolvedCategory(before: seq<CategoryRow>, rows: seq<CategoryRow>, rows': seq<CategoryRow>,
                         ids: map<string, int>, name: string, id: int)
    requires CategoriesResolved(before, rows, ids)
    requires FindCategory(rows, name).Some? ==> id == FindCategory(rows, name).value && rows' == rows
    requires FindCategory(rows, name) == None ==> rows' == rows + [CategoryRow(id, name)]
    ensures CategoriesResolved(before, rows', ids[name := id])
  {
    if FindCategory(rows, name).Some? {
      ReuseCategory(before, rows, ids, name);
    } else {
      InsertedCategory(before, rows, ids, name, id);
    }
  }

  /** The loop filling `category_ids` (nbv2.py:523-536) over the category
      names in dictionary order. */
  method ResolveCategories(db: Database, names: seq<string>) returns (ids: map<string, int>)
    requires db.Valid()
    modifies db
    ensures db.Valid()
    ensures db.subcategories == old(db.subcategories) && db.nextSubcategoryId == old(db.nextSubcategoryId)
    ensures ids.Keys == Elements(names)
    ensures CategoriesResolved(old(db.categories), db.categories, ids)
  {
    ghost var before := db.categories;
    ids := map[];
    var k := 0;
    while k < |names|
      invariant 0 <= k <= |names|
      invariant db.Valid()
      invariant db.subcategories == old(db.subcategories) && db.nextSubcategoryId == old(db.nextSubcategoryId)
      invariant ids.Keys == Elements(names[..k])
      invariant CategoriesResolved(before, db.categories, ids)
    {
      var name := names[k];
      ghost var rows := db.categories;
      var id := GetOrCreateCategory(db, name);
      ResolvedCategory(before, rows, db.categories, ids, name, id);
      KeysAfterPut(ids, name, id);
      ids := ids[name := id];
      PrefixKeys(names, k);
      k := k + 1;
    }
    assert names[..k] == names;
  }

  /** A configured pair names the row `(name, categoryId)`. */
  ghost predicate Requested(ids: map<(string, string), int>, categoryIds: map<string, int>, name: string, categoryId: int) {
    exists p :: p in ids && p.0 in categoryIds && p.1 == name && categoryIds[p.0] == categoryId
  }

  /** The subcategory counterpart of `CategoriesResolved`, a pair
      `(category, subcategory)` being looked up by the subcategory's name
      under the category's id. */
  ghost predicate SubcategoriesResolved(before: seq<SubcategoryRow>, rows: seq<SubcategoryRow>,
                                        categoryIds: map<string, int>, ids: map<(string, string), int>) {
    && before <= rows
    && (forall p :: p in ids ==> p.0 in categoryIds && FindSubcategory(rows, p.1, categoryIds[p.0]) == Some(ids[p]))
    && (forall p :: p in ids && p.0 in categoryIds && FindSubcategory(before, p.1, categoryIds[p.0]).Some? ==>
          ids[p] == FindSubcategory(before, p.1, categoryIds[p.0]).value)
    && (forall i :: |before| <= i < |rows| ==>
          Requested(ids, categoryIds, rows[i].name, rows[i].categoryId)
          && FindSubcategory(before, rows[i].name, rows[i].categoryId) == None)
    && (forall i, j :: |before| <= i < j < |rows| ==>
          rows[i].name != rows[j].name || rows[i].categoryId != rows[j].categoryId)
  }

  lemma ReuseSubcategory(before: seq<SubcategoryRow>, rows: seq<SubcategoryRow>, categoryIds: map<string, int>,
                         ids: map<(string, string), int>, category: string, name: string)
    requires SubcategoriesResolved(before, rows, categoryIds, ids)
    requires category in categoryIds && FindSubcategory(rows, name, categoryIds[category]).Some?
    ensures SubcategoriesResolved(before, rows, categoryIds,
                                  ids[(category, name) := FindSubcategory(rows, name, categoryIds[category]).value])
  {
    var ids' := ids[(category, name) := FindSubcategory(rows, name, categoryIds[category]).value];
    FindSubcategoryAppend(before, rows[|before|..], name, categoryIds[category]);
    PrefixSplit(before, rows);
    forall i | |before| <= i < |rows|
      ensures Requested(ids', categoryIds, rows[i].name, rows[i].categoryId)
    {
      assert Requested(ids, categoryIds, rows[i].name, rows[i].categoryId);
      var p :| p in ids && p.0 in categoryIds && p.1 == rows[i].name && categoryIds[p.0] == rows[i].categoryId;
      assert p in ids';
    }
  }

  lemma InsertedSubcategory(before: seq<SubcategoryRow>, rows: seq<SubcategoryRow>, categoryIds: map<string, int>,
                            ids: map<(string, string), int>, category: string, name: string, id: int)
    requires SubcategoriesResolved(before, rows, categoryIds, ids)
    requires category in categoryIds && FindSubcategory(rows, name, categoryIds[category]) == None
    ensures SubcategoriesResolved(before, rows + [SubcategoryRow(id, categoryIds[category], name)], categoryIds,
                                  ids[(category, name) := id])
  {
    InsertKeepsSubcategoryLookups(before, rows, categoryIds, ids, category, name, id);
    InsertedSubcategoryIsNew(before, rows, categoryIds, ids, category, name, id);
    assert before <= rows + [SubcategoryRow(id, categoryIds[category], name)];
  }

  lemma InsertKeepsSubcategoryLookups(before: seq<SubcategoryRow>, rows: seq<SubcategoryRow>, categoryIds: map<string, int>,
                                      ids: map<(string, string), int>, category: string, name: string, id: int)
    requires SubcategoriesResolved(before, rows, categoryIds, ids)
    requires category in categoryIds && FindSubcategory(rows, name, categoryIds[category]) == None
    ensures FindSubcategory(before, name, categoryIds[category]) == None
    ensures (category, name) !in ids
    ensures var ids' := ids[(category, name) := id];
      forall p :: p in ids' ==>
        p.0 in categoryIds && FindSubcategory(rows + [SubcategoryRow(id, categoryIds[category], name)], p.1, categoryIds[p.0]) == Some(ids'[p])
  {
    var row := SubcategoryRow(id, categoryIds[category], name);
    forall p | p in ids
      ensures FindSubcategory(rows + [row], p.1, categoryIds[p.0]) == Some(ids[p])
    {
      FindSubcategoryAppend(rows, [row], p.1, categoryIds[p.0]);
    }
    FindSubcategoryAppend(rows, [row], name, categoryIds[category]);
    FindSubcategoryAppend(before, rows[|before|..], name, categoryIds[category]);
    PrefixSplit(before, rows);
  }

  lemma InsertedSubcategoryIsNew(before: seq<SubcategoryRow>, rows: seq<SubcategoryRow>, categoryIds: map<string, int>,
                                 ids: map<(string, string), int>, category: string, name: string, id: int)
    requires SubcategoriesResolved(before, rows, categoryIds, ids)
    requires category in categoryIds && FindSubcategory(rows, name, categoryIds[category]) == None
    requires FindSubcategory(before, name, categoryIds[category]) == None
    ensures var grown := rows + [SubcategoryRow(id, categoryIds[category], name)];
      && (forall i :: |before| <= i < |grown| ==>
            Requested(ids[(category, name) := id], categoryIds, grown[i].name, grown[i].categoryId)
            && FindSubcategory(before, grown[i].name, grown[i].categoryId) == None)
      && (forall i, j :: |before| <= i < j < |grown| ==>
            grown[i].name != grown[j].name || grown[i].categoryId != grown[j].categoryId)
  {
    var ids' := ids[(category, name) := id];
    var grown := rows + [SubcategoryRow(id, categoryIds[category], name)];
    forall i | |before| <= i < |grown|
      ensures Requested(ids', categoryIds, grown[i].name, grown[i].categoryId)
      ensures FindSubcategory(before, grown[i].name, grown[i].categoryId) == None
    {
      if i < |rows| {
        assert grown[i] == rows[i];
        var p :| p in ids && p.0 in categoryIds && p.1 == rows[i].name && categoryIds[p.0] == rows[i].categoryId;
        assert p in ids';
      } else {
        assert (category, name) in ids';
      }
    }
    forall i, j | |before| <= i < j < |grown|
      ensures grown[i].name != grown[j].name || grown[i].categoryId != grown[j].categoryId
    {
      assert grown[i] == rows[i];
      if j < |rows| {
        assert grown[j] == rows[j];
      }
    }
  }

  /** The `subcategories` dictionary: for each category name, its
      (subcategory name, site code) pairs, in dictionary order. */
  type Catalogue = seq<(string, seq<(string, string)>)>

  /** The keys `(category, subcategory)` one entry contributes. */
  function Under(category: string, subs: seq<(string, string)>): (r: seq<(string, string)>)
    ensures |r| == |subs|
    ensures forall j :: 0 <= j < |subs| ==> r[j] == (category, subs[j].0)
  {
    seq(|subs|, j requires 0 <= j < |subs| => (category, subs[j].0))
  }

  lemma UnderSnoc(category: string, subs: seq<(string, string)>, s: nat)
    requires s < |subs|
    ensures Under(category, subs[..s + 1]) == Under(category, subs[..s]) + [(category, subs[s].0)]
  {
    var a := Under(category, subs[..s + 1]);
    var b := Under(category, subs[..s]) + [(category, subs[s].0)];
    assert |a| == |b|;
    forall j | 0 <= j < |a|
      ensures a[j] == b[j]
    {
      if j < s {
        assert subs[..s + 1][j] == subs[..s][j];
      }
    }
  }

  /** The keys of `subcategory_ids` in the order the loops visit them. */
  function Pairs(config: Catalogue): seq<(string, string)> {
    if |config| == 0 then [] else Pairs(config[..|config| - 1]) + Under(config[|config| - 1].0, config[|config| - 1].1)
  }

  /** The elements of a prefix one longer. */
  lemma PrefixKeys<T>(names: seq<T>, k: nat)
    requires k < |names|
    ensures Elements(names[..k + 1]) == Elements(names[..k]) + {names[k]}
  {
    assert names[..k + 1] == names[..k] + [names[k]];
    ElementsSnoc(names[..k], names[k]);
  }

  lemma UnderKeys(category: string, subs: seq<(string, string)>, s: nat)
    requires s < |subs|
    ensures Elements(Under(category, subs[..s + 1])) == Elements(Under(category, subs[..s])) + {(category, subs[s].0)}
  {
    UnderSnoc(category, subs, s);
    ElementsSnoc(Under(category, subs[..s]), (category, subs[s].0));
  }

  lemma PairsKeys(config: Catalogue, c: nat)
    requires c < |config|
    ensures Elements(Pairs(config[..c + 1])) == Elements(Pairs(config[..c])) + Elements(Under(config[c].0, config[c].1))
  {
    assert config[..c + 1][..c] == config[..c];
    ElementsAppend(Pairs(config[..c]), Under(config[c].0, config[c].1));
  }

  /** One pass of the inner loop's body: the lookup, then the insert when
      the lookup found nothing. */
  method GetOrCreateSubcategory(db: Database, categoryId: int, name: string) returns (id: int)
    requires db.Valid() && HasCategory(db.categories, categoryId)
    modifies db
    ensures db.Valid()
    ensures db.categories == old(db.categories) && db.nextCategoryId == old(db.nextCategoryId)
    ensures FindSubcategory(old(db.subcategories), name, categoryId).Some? ==>
      id == FindSubcategory(old(db.subcategories), name, categoryId).value && db.subcategories == old(db.subcategories)
      && db.nextSubcategoryId == old(db.nextSubcategoryId)
    ensures FindSubcategory(old(db.subcategories), name, categoryId) == None ==>
      db.subcategories == old(db.subcategories) + [SubcategoryRow(id, categoryId, name)]
      && id == old(db.nextSubcategoryId) && db.nextSubcategoryId == id + 1
  {
    var result := FindSubcategory(db.subcategories, name, categoryId);
    if result.Some? {
      id := result.value;
    } else {
      id := db.InsertSubcategory(categoryId, name);
    }
  }

  /** What a get-or-create of one pair does to the resolution. */
  lemma ResolvedPair(before: seq<SubcategoryRow>, rows: seq<SubcategoryRow>, rows': seq<SubcategoryRow>,
                     categoryIds: map<string, int>, ids: map<(string, string), int>, category: string, name: string, id: int)
    requires SubcategoriesResolved(before, rows, categoryIds, ids) && category in categoryIds
    requires FindSubcategory(rows, name, categoryIds[category]).Some? ==>
      id == FindSubcategory(rows, name, categoryIds[category]).value && rows' == rows
    requires FindSubcategory(rows, name, categoryIds[category]) == None ==>
      rows' == rows + [SubcategoryRow(id, categoryIds[category], name)]
    ensures SubcategoriesResolved(before, rows', categoryIds, ids[(category, name) := id])
  {
    if FindSubcategory(rows, name, categoryIds[category]).Some? {
      ReuseSubcategory(before, rows, categoryIds, ids, category, name);
    } else {
      InsertedSubcategory(before, rows, categoryIds, ids, category, name, id);
    }
  }

  /** The inner loop of `subcategory_ids` (nbv2.py:540-553): the pairs of
      one category. */
  method ResolveEntry(db: Database, categoryName: string, subs: seq<(string, string)>, categoryIds: map<string, int>,
                      ids0: map<(string, string), int>, ghost before: seq<SubcategoryRow>)
    returns (ids: map<(string, string), int>)
    requires db.Valid()
    requires |subs| > 0 ==> categoryName in categoryIds && HasCategory(db.categories, categoryIds[categoryName])
    requires SubcategoriesResolved(before, db.subcategories, categoryIds, ids0)
    modifies db
    ensures db.Valid()
    ensures db.categories == old(db.categories) && db.nextCategoryId == old(db.nextCategoryId)
    ensures ids.Keys == ids0.Keys + Elements(Under(categoryName, subs))
    ensures SubcategoriesResolved(before, db.subcategories, categoryIds, ids)
  {
    ids := ids0;
    var s := 0;
    assert Under(categoryName, subs[..0]) == [];
    while s < |subs|
      invariant 0 <= s <= |subs|
      invariant db.Valid()
      invariant db.categories == old(db.categories) && db.nextCategoryId == old(db.nextCategoryId)
      invariant ids.Keys == ids0.Keys + Elements(Under(categoryName, subs[..s]))
      invariant SubcategoriesResolved(before, db.subcategories, categoryIds, ids)
    {
      var subcategoryName := subs[s].0;
      ghost var rows := db.subcategories;
      var id := GetOrCreateSubcategory(db, categoryIds[categoryName], subcategoryName);
      ResolvedPair(before, rows, db.subcategories, categoryIds, ids, categoryName, subcategoryName, id);
      KeysAfterPut(ids, (categoryName, subcategoryName), id);
      ids := ids[(categoryName, subcategoryName) := id];
      UnderKeys(categoryName, subs, s);
      UnionAssociates(ids0.Keys, Elements(Under(categoryName, subs[..s])), {(categoryName, subcategoryName)});
      s := s + 1;
    }
    assert subs[..s] == subs;
  }

  /** The loops filling `subcategory_ids` (nbv2.py:538-553); the category ids
      come from `category_ids`, which must hold every category that has
      subcategories (a `KeyError` otherwise). */
  method ResolveSubcategories(db: Database, config: Catalogue, categoryIds: map<string, int>)
    returns (ids: map<(string, string), int>)
    requires db.Valid()
    requires forall c :: 0 <= c < |config| && |config[c].1| > 0 ==>
      config[c].0 in categoryIds && HasCategory(db.categories, categoryIds[config[c].0])
    modifies db
    ensures db.Valid()
    ensures db.categories == old(db.categories) && db.nextCategoryId == old(db.nextCategoryId)
    ensures ids.Keys == Elements(Pairs(config))
    ensures SubcategoriesResolved(old(db.subcategories), db.subcategories, categoryIds, ids)
  {
    ghost var before := db.subcategories;
    ids := map[];
    var c := 0;
    while c < |config|
      invariant 0 <= c <= |config|
      invariant db.Valid()
      invariant db.categories == old(db.categories) && db.nextCategoryId == old(db.nextCategoryId)
      invariant ids.Keys == Elements(Pairs(config[..c]))
      invariant SubcategoriesResolved(before, db.subcategories, categoryIds, ids)
    {
      ids := ResolveEntry(db, config[c].0, config[c].1, categoryIds, ids, before);
      PairsKeys(config, c);
      c := c + 1;
    }
    assert config[..c] == config;
  }

  /** Rows whose identities grow with their position. */
  ghost predicate CategoryIdsIncrease(rows: seq<CategoryRow>) {
    forall i, j :: 0 <= i < j < |rows| ==> rows[i].id < rows[j].id
  }

  ghost predicate SubcategoryIdsIncrease(rows: seq<SubcategoryRow>) {
    forall i, j :: 0 <= i < j < |rows| ==> rows[i].id < rows[j].id
  }

  /** Two different category names never resolve to the same id. */
  lemma DistinctCategoriesGetDistinctIds(rows: seq<CategoryRow>, a: string, b: string)
    requires CategoryIdsIncrease(rows) && a != b
    requires FindCategory(rows, a).Some? && FindCategory(rows, b).Some?
    ensures FindCategory(rows, a).value != FindCategory(rows, b).value
  {
    var i := CategoryIndex(rows, a);
    var j := CategoryIndex(rows, b);
    assert i != j;
  }

  /** Two different (name, category) keys never resolve to the same id. */
  lemma DistinctSubcategoriesGetDistinctIds(rows: seq<SubcategoryRow>, a: string, ca: int, b: string, cb: int)
    requires SubcategoryIdsIncrease(rows) && (a != b || ca != cb)
    requires FindSubcategory(rows, a, ca).Some? && FindSubcategory(rows, b, cb).Some?
    ensures FindSubcategory(rows, a, ca).value != FindSubcategory(rows, b, cb).value
  {
    var i := SubcategoryIndex(rows, a, ca);
    var j := SubcategoryIndex(rows, b, cb);
    assert i != j;
  }

  /** When every name was already in the table, resolution inserts nothing:
      a second start-up over the same configuration leaves the table as the
      first one left it. */
  lemma CategoriesSettled(before: seq<CategoryRow>, rows: seq<CategoryRow>, ids: map<string, int>)
    requires CategoriesResolved(before, rows, ids)
    requires forall n :: n in ids ==> FindCategory(before, n).Some?
    ensures rows == before
  {
    if |rows| > |before| {
      NewCategoryRow(before, rows, ids, |before|);
    }
  }

  lemma NewCategoryRow(before: seq<CategoryRow>, rows: seq<CategoryRow>, ids: map<string, int>, i: nat)
    requires CategoriesResolved(before, rows, ids) && |before| <= i < |rows|
    ensures rows[i].name in ids && FindCategory(before, rows[i].name) == None
  {
  }

  lemma SubcategoriesSettled(before: seq<SubcategoryRow>, rows: seq<SubcategoryRow>,
                             categoryIds: map<string, int>, ids: map<(string, string), int>)
    requires SubcategoriesResolved(before, rows, categoryIds, ids)
    requires forall p :: p in ids ==> p.0 in categoryIds && FindSubcategory(before, p.1, categoryIds[p.0]).Some?
    ensures rows == before
  {
    if |rows| > |before| {
      NewSubcategoryRow(before, rows, categoryIds, ids, |before|);
    }
  }

  lemma NewSubcategoryRow(before: seq<SubcategoryRow>, rows: seq<SubcategoryRow>,
                          categoryIds: map<string, int>, ids: map<(string, string), int>, i: nat)
    requires SubcategoriesResolved(before, rows, categoryIds, ids) && |before| <= i < |rows|
    ensures exists p :: p in ids && p.0 in categoryIds && p.1 == rows[i].name && categoryIds[p.0] == rows[i].categoryId
                        && FindSubcategory(before, p.1, categoryIds[p.0]) == None
  {
    assert Requested(ids, categoryIds, rows[i].name, rows[i].categoryId);
  }

  /** The configured category names (nbv2.py:503-506). */
  const MainItem := "Główny Przedmiot"
  const Consumable := "Przedmiot Konsumpcyjny"

  /** `categories`: each category name with its site code. */
  const Categories: seq<(string, string)> := [(MainItem, "3310"), (Consumable, "3311")]

  /** `subcategories` (nbv2.py:508-521), without the entries that are
      commented out there. */
  const Subcategories: Catalogue := [
    (MainItem, [("Przedmioty specjalne", "3353")]),
    (Consumable, [("Składniki", "3359")])
  ]

  /** `categories.keys()`. */
  function Names(entries: seq<(string, string)>): (r: seq<string>)
    ensures |r| == |entries| && forall i :: 0 <= i < |entries| ==> r[i] == entries[i].0
  {
    seq(|entries|, i requires 0 <= i < |entries| => entries[i].0)
  }

  /** The keys the configured dictionaries give, in loop order. */
  lemma ConfiguredKeys()
    ensures Names(Categories) == [MainItem, Consumable]
    ensures |Subcategories| == 2 && Subcategories[0].0 == MainItem && Subcategories[1].0 == Consumable
    ensures Pairs(Subcategories) == [(MainItem, "Przedmioty specjalne"), (Consumable, "Składniki")]
  {
    var first := Subcategories[..1];
    assert first == [(MainItem, [("Przedmioty specjalne", "3353")])];
    assert first[..0] == [];
    assert Pairs(first) == [] + Under(MainItem, [("Przedmioty specjalne", "3353")]);
    assert Under(MainItem, [("Przedmioty specjalne", "3353")]) == [(MainItem, "Przedmioty specjalne")];
    assert Under(Consumable, [("Składniki", "3359")]) == [(Consumable, "Składniki")];
    assert Pairs(Subcategories) == Pairs(first) + Under(Consumable, [("Składniki", "3359")]);
  }

  /** Both resolution loops over the configured dictionaries. Afterwards
      every configured category and every configured pair has an id, which
      the scraping jobs can look up without a `KeyError`. */
  method ResolveDimensions(db: Database) returns (categoryIds: map<string, int>, subcategoryIds: map<(string, string), int>)
    requires db.Valid()
    modifies db
    ensures db.Valid()
    ensures categoryIds.Keys == {MainItem, Consumable}
    ensures subcategoryIds.Keys == {(MainItem, "Przedmioty specjalne"), (Consumable, "Składniki")}
    ensures CategoriesResolved(old(db.categories), db.categories, categoryIds)
    ensures SubcategoriesResolved(old(db.subcategories), db.subcategories, categoryIds, subcategoryIds)
  {
    ConfiguredKeys();
    ElementsOfTwo(MainItem, Consumable);
    ElementsOfTwo((MainItem, "Przedmioty specjalne"), (Consumable, "Składniki"));
    categoryIds := ResolveCategories(db, Names(Categories));
    assert FindCategory(db.categories, MainItem) == Some(categoryIds[MainItem]);
    assert FindCategory(db.categories, Consumable) == Some(categoryIds[Consumable]);
    FindCategoryMeaning(db.categories, MainItem);
    FindCategoryMeaning(db.categories, Consumable);
    forall c | 0 <= c < |Subcategories| && |Subcategories[c].1| > 0
      ensures Subcategories[c].0 in categoryIds && HasCategory(db.categories, categoryIds[Subcategories[c].0])
    {
      if c == 0 {
      } else {
        assert c == 1;
      }
    }
    subcategoryIds := ResolveSubcategories(db, Subcategories, categoryIds);
  }
}
