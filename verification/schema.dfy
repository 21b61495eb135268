/**
 * The relational state the migrations of alembic/versions act on: which
 * tables exist, the rows of `recipes` with the `difficulty_level` column when
 * it exists, and the rows of `ingredients` and `recipe_ingredients`.  The
 * methods of `Database` are the schema and data operations the migrations
 * issue through alembic's `op`.
 */
module Schema {
  import opened Wrappers
  import opened RecipeStore

  const RecipesTable: string := "recipes"
  const IngredientsTable: string := "ingredients"
  const LinksTable: string := "recipe_ingredients"

  /** Whether `recipes.difficulty_level` exists, and whether it admits NULL. */
  datatype ColumnState = Absent | Nullable | NotNull

  /** A `recipes` row with its `difficulty_level` (None is NULL, or no column). */
  datatype RecipeRecord = RecipeRecord(row: RecipeRow, difficulty: Option<string>)

  /** An `ingredients` row; name and type are NOT NULL, origin and roast_level nullable. */
  datatype Ingredient = Ingredient(id: nat, name: string, kind: string,
                                   origin: Option<string>, roastLevel: Option<string>, createdAt: Timestamp)

  /** A `recipe_ingredients` row; quantity and unit are NOT NULL. */
  datatype RecipeIngredient = RecipeIngredient(recipeId: nat, ingredientId: nat,
                                               quantity: real, unit: string, createdAt: Timestamp)

  ghost predicate NoMissingDifficulty(recipes: seq<RecipeRecord>) {
    forall i | 0 <= i < |recipes| :: recipes[i].difficulty.Some?
  }

  ghost predicate AllMissingDifficulty(recipes: seq<RecipeRecord>) {
    forall i | 0 <= i < |recipes| :: recipes[i].difficulty.None?
  }

  /** `UPDATE recipes SET difficulty_level = level WHERE difficulty_level IS NULL`. */
  function FillMissing(recipes: seq<RecipeRecord>, level: string): (r: seq<RecipeRecord>)
    ensures |r| == |recipes| && NoMissingDifficulty(r)
    ensures forall i | 0 <= i < |r| :: r[i].row == recipes[i].row
    ensures forall i | 0 <= i < |r| :: recipes[i].difficulty.Some? ==> r[i] == recipes[i]
    ensures forall i | 0 <= i < |r| :: recipes[i].difficulty.None? ==> r[i].difficulty == Some(level)
  {
    seq(|recipes|, i requires 0 <= i < |recipes| =>
      if recipes[i].difficulty.None? then RecipeRecord(recipes[i].row, Some(level)) else recipes[i])
  }

  /** The rows once `difficulty_level` is dropped: every other column stays. */
  function WithoutDifficulty(recipes: seq<RecipeRecord>): (r: seq<RecipeRecord>)
    ensures |r| == |recipes| && AllMissingDifficulty(r)
    ensures forall i | 0 <= i < |r| :: r[i].row == recipes[i].row
  {
    seq(|recipes|, i requires 0 <= i < |recipes| => RecipeRecord(recipes[i].row, None))
  }

  function RecipeIds(recipes: seq<RecipeRecord>): set<nat> {
    set i | 0 <= i < |recipes| :: recipes[i].row.id
  }

  function IngredientIds(ingredients: seq<Ingredient>): set<nat> {
    set i | 0 <= i < |ingredients| :: ingredients[i].id
  }

  /** The composite primary key (recipe_id, ingredient_id). */
  ghost predicate LinkKeysUnique(links: seq<RecipeIngredient>) {
    forall i, j | 0 <= i < j < |links| ::
      links[i].recipeId != links[j].recipeId || links[i].ingredientId != links[j].ingredientId
  }

  // ---------------------------------------------------------------------
  // Properties of the row transformations

  /** On a column just added, every row is NULL, so the backfill gives every
      row the default. */
  lemma FreshColumnGetsDefault(recipes: seq<RecipeRecord>, level: string)
    requires AllMissingDifficulty(recipes)
    ensures forall i | 0 <= i < |recipes| :: FillMissing(recipes, level)[i] == RecipeRecord(recipes[i].row, Some(level))
  {
  }

  /** Dropping the column after adding and backfilling it gives back the rows. */
  lemma DropUndoesFill(recipes: seq<RecipeRecord>, level: string)
    requires AllMissingDifficulty(recipes)
    ensures WithoutDifficulty(FillMissing(recipes, level)) == recipes
  {
    var r := WithoutDifficulty(FillMissing(recipes, level));
    assert forall i | 0 <= i < |recipes| :: r[i] == recipes[i];
  }

  /** Neither transformation changes which recipe ids exist. */
  lemma IdsKept(recipes: seq<RecipeRecord>, level: string)
    ensures RecipeIds(FillMissing(recipes, level)) == RecipeIds(recipes)
    ensures RecipeIds(WithoutDifficulty(recipes)) == RecipeIds(recipes)
  {
    var filled := FillMissing(recipes, level);
    var dropped := WithoutDifficulty(recipes);
    forall id | id in RecipeIds(recipes)
      ensures id in RecipeIds(filled) && id in RecipeIds(dropped)
    {
      var i :| 0 <= i < |recipes| && recipes[i].row.id == id;
      assert filled[i].row.id == id && dropped[i].row.id == id;
    }
  }

  // ---------------------------------------------------------------------
  // The database

  class Database {
    var tables: set<string>
    var recipes: seq<RecipeRecord>
    var difficulty: ColumnState
    var ingredients: seq<Ingredient>
    var links: seq<RecipeIngredient>

    /** The declared constraints: the column state agrees with the rows, a
        table that does not exist has no rows, `recipe_ingredients` exists
        only beside `ingredients`, ingredient ids count up from 1, link keys
        are unique and links reference existing rows. */
    ghost predicate Valid()
      reads this
    {
      && RecipesTable in tables
      && (difficulty == Absent ==> AllMissingDifficulty(recipes))
      && (difficulty == NotNull ==> NoMissingDifficulty(recipes))
      && (IngredientsTable !in tables ==> ingredients == [])
      && (LinksTable !in tables ==> links == [])
      && (LinksTable in tables ==> IngredientsTable in tables)
      && (forall i | 0 <= i < |ingredients| :: ingredients[i].id == i + 1)
      && LinkKeysUnique(links)
      && (forall i | 0 <= i < |links| ::
            links[i].recipeId in RecipeIds(recipes) && links[i].ingredientId in IngredientIds(ingredients))
    }

    /** The database as db.py creates it: the `recipes` table and its rows. */
    constructor (rows: seq<RecipeRow>)
      ensures Valid()
      ensures tables == {RecipesTable} && difficulty == Absent && ingredients == [] && links == []
      ensures |recipes| == |rows| && forall i | 0 <= i < |rows| :: recipes[i] == RecipeRecord(rows[i], None)
    {
      tables := {RecipesTable};
      recipes := seq(|rows|, i requires 0 <= i < |rows| => RecipeRecord(rows[i], None));
      difficulty := Absent;
      ingredients := [];
      links := [];
    }

    /** `batch_op.add_column(Column("difficulty_level", String, nullable=True))`. */
    method AddDifficultyColumn()
      requires Valid() && difficulty == Absent
      modifies this
      ensures Valid() && difficulty == Nullable
      ensures tables == old(tables) && recipes == old(recipes)
      ensures ingredients == old(ingredients) && links == old(links)
    {
      difficulty := Nullable;
    }

    /** `UPDATE recipes SET difficulty_level = level WHERE difficulty_level IS NULL`. */
    method FillMissingDifficulty(level: string)
      requires Valid() && difficulty != Absent
      modifies this
      ensures Valid() && recipes == FillMissing(old(recipes), level)
      ensures tables == old(tables) && difficulty == old(difficulty)
      ensures ingredients == old(ingredients) && links == old(links)
    {
      IdsKept(recipes, level);
      recipes := FillMissing(recipes, level);
    }

    /** `batch_op.alter_column("difficulty_level", nullable=False)`: refused
        while a NULL remains. */
    method RequireDifficulty() returns (ok: bool)
      requires Valid() && difficulty != Absent
      modifies this
      ensures Valid()
      ensures ok <==> NoMissingDifficulty(old(recipes))
      ensures difficulty == if ok then NotNull else old(difficulty)
      ensures tables == old(tables) && recipes == old(recipes)
      ensures ingredients == old(ingredients) && links == old(links)
    {
      ok := true;
      var i := 0;
      while i < |recipes|
        invariant 0 <= i <= |recipes|
        invariant ok <==> forall j | 0 <= j < i :: recipes[j].difficulty.Some?
      {
        if recipes[i].difficulty.None? {
          ok := false;
        }
        i := i + 1;
      }
      if ok {
        difficulty := NotNull;
      }
    }

    /** `batch_op.drop_column("difficulty_level")`. */
    method DropDifficultyColumn()
      requires Valid() && difficulty != Absent
      modifies this
      ensures Valid() && difficulty == Absent
      ensures recipes == WithoutDifficulty(old(recipes))
      ensures tables == old(tables) && ingredients == old(ingredients) && links == old(links)
    {
      IdsKept(recipes, "");
      recipes := WithoutDifficulty(recipes);
      difficulty := Absent;
    }

    /** `op.create_table('ingredients', ...)`. */
    method CreateIngredientsTable()
      requires Valid() && IngredientsTable !in tables
      modifies this
      ensures Valid() && tables == old(tables) + {IngredientsTable} && ingredients == []
      ensures recipes == old(recipes) && difficulty == old(difficulty) && links == old(links)
    {
      tables := tables + {IngredientsTable};
    }

    /** `op.create_table('recipe_ingredients', ...)`, whose foreign key names
        `ingredients.id`. */
    method CreateLinksTable()
      requires Valid() && LinksTable !in tables && IngredientsTable in tables
      modifies this
      ensures Valid() && tables == old(tables) + {LinksTable} && links == []
      ensures recipes == old(recipes) && difficulty == old(difficulty) && ingredients == old(ingredients)
    {
      tables := tables + {LinksTable};
    }

    /** One row of `INSERT INTO ingredients (name, type, origin, roast_level)`;
        the id is the next integer key and `created_at` the server's now(). */
    method InsertIngredient(name: string, kind: string, origin: Option<string>, roastLevel: Option<string>,
                            now: Timestamp)
      requires Valid() && IngredientsTable in tables
      modifies this
      ensures Valid()
      ensures ingredients == old(ingredients) + [Ingredient(|old(ingredients)| + 1, name, kind, origin, roastLevel, now)]
      ensures tables == old(tables) && recipes == old(recipes) && difficulty == old(difficulty) && links == old(links)
    {
      var added := Ingredient(|ingredients| + 1, name, kind, origin, roastLevel, now);
      assert forall i | 0 <= i < |links| :: links[i].ingredientId in IngredientIds(ingredients + [added]) by {
        forall i | 0 <= i < |links| ensures links[i].ingredientId in IngredientIds(ingredients + [added]) {
          var k :| 0 <= k < |ingredients| && ingredients[k].id == links[i].ingredientId;
          assert (ingredients + [added])[k] == ingredients[k];
        }
      }
      ingredients := ingredients + [added];
    }

    /** `op.drop_table('recipe_ingredients')`. */
    method DropLinksTable()
      requires Valid() && LinksTable in tables
      modifies this
      ensures Valid() && tables == old(tables) - {LinksTable} && links == []
      ensures recipes == old(recipes) && difficulty == old(difficulty) && ingredients == old(ingredients)
    {
      tables := tables - {LinksTable};
      links := [];
    }

    /** `op.drop_table('ingredients')`, once nothing declares a reference to it. */
    method DropIngredientsTable()
      requires Valid() && IngredientsTable in tables && LinksTable !in tables
      modifies this
      ensures Valid() && tables == old(tables) - {IngredientsTable} && ingredients == []
      ensures recipes == old(recipes) && difficulty == old(difficulty) && links == old(links)
    {
      tables := tables - {IngredientsTable};
      ingredients := [];
    }
  }
}
