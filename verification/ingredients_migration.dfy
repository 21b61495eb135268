/**
 * Revision d622b5788e68: create `ingredients` and `recipe_ingredients` and
 * seed three coffee beans.  Downgrade drops the link table, then
 * `ingredients`, losing the seed rows.
 */
module IngredientsMigration {
  import opened Wrappers
  import opened RecipeStore
  import opened Schema

  const Revision: string := "d622b5788e68"
  const DownRevision: Option<string> := Some("364ef5b2c019")

  /** The rows the seed INSERT leaves in the new, empty table: ids 1 to 3,
      all of type 'bean', stamped with the server's time `now`. */
  function Seeds(now: Timestamp): (r: seq<Ingredient>)
    ensures |r| == 3
    ensures forall i | 0 <= i < |r| :: r[i].id == i + 1 && r[i].kind == "bean" && r[i].createdAt == now
    ensures forall i | 0 <= i < |r| :: r[i].origin.Some? && r[i].roastLevel.Some?
  {
    [ Ingredient(1, "Arábica Colombia", "bean", Some("Colombia"), Some("medium"), now),
      Ingredient(2, "Robusta Vietnam", "bean", Some("Vietnam"), Some("dark"), now),
      Ingredient(3, "Arábica Ethiopia", "bean", Some("Ethiopia"), Some("light"), now) ]
  }

  /** `upgrade()`. */
  method Upgrade(db: Database, now: Timestamp)
    requires db.Valid() && IngredientsTable !in db.tables && LinksTable !in db.tables
    modifies db
    ensures db.Valid()
    ensures db.tables == old(db.tables) + {IngredientsTable, LinksTable}
    ensures db.ingredients == Seeds(now) && db.links == []
    ensures db.recipes == old(db.recipes) && db.difficulty == old(db.difficulty)
  {
    db.CreateIngredientsTable();
    db.CreateLinksTable();
    var seeds := Seeds(now);
    for i := 0 to |seeds|
      invariant db.Valid()
      invariant db.tables == old(db.tables) + {IngredientsTable, LinksTable}
      invariant db.ingredients == seeds[..i] && db.links == []
      invariant db.recipes == old(db.recipes) && db.difficulty == old(db.difficulty)
    {
      var s := seeds[i];
      db.InsertIngredient(s.name, s.kind, s.origin, s.roastLevel, now);
      assert db.ingredients == seeds[..i] + [s];
    }
    assert seeds[..|seeds|] == seeds;
  }

  /** `downgrade()`: the link table first, so that no declared reference to
      `ingredients` is left dangling. */
  method Downgrade(db: Database)
    requires db.Valid() && IngredientsTable in db.tables && LinksTable in db.tables
    modifies db
    ensures db.Valid()
    ensures db.tables == old(db.tables) - {IngredientsTable, LinksTable}
    ensures db.ingredients == [] && db.links == []
    ensures db.recipes == old(db.recipes) && db.difficulty == old(db.difficulty)
  {
    db.DropLinksTable();
    db.DropIngredientsTable();
  }

  /** Upgrade then downgrade gives back the tables and rows the database had:
      the seed rows go with the table. */
  method UpgradeThenDowngrade(db: Database, now: Timestamp)
    requires db.Valid() && IngredientsTable !in db.tables && LinksTable !in db.tables
    modifies db
    ensures db.Valid() && db.tables == old(db.tables)
    ensures db.recipes == old(db.recipes) && db.difficulty == old(db.difficulty)
    ensures db.ingredients == old(db.ingredients) && db.links == old(db.links)
  {
    Upgrade(db, now);
    Downgrade(db);
  }
}
