/**
 * Revision 67e944f651e4, the root of the migration chain: give `recipes` a
 * `difficulty_level` column, nullable at first, set every NULL to
 * 'intermediate', then make the column NOT NULL.  Downgrade drops it.
 */
module DifficultyMigration {
  import opened Wrappers
  import opened Schema

  const Revision: string := "67e944f651e4"
  const DownRevision: Option<string> := None

  const DefaultLevel: string := "intermediate"

  /** `upgrade()`: the three steps in order.  The NOT NULL step would refuse
      a remaining NULL; the backfill leaves none, so it always succeeds. */
  method Upgrade(db: Database)
    requires db.Valid() && db.difficulty == Absent
    modifies db
    ensures db.Valid() && db.difficulty == NotNull
    ensures |db.recipes| == |old(db.recipes)|
    ensures forall i | 0 <= i < |db.recipes| :: db.recipes[i] == RecipeRecord(old(db.recipes)[i].row, Some(DefaultLevel))
    ensures db.tables == old(db.tables) && db.ingredients == old(db.ingredients) && db.links == old(db.links)
  {
    ghost var before := db.recipes;
    db.AddDifficultyColumn();
    db.FillMissingDifficulty(DefaultLevel);
    FreshColumnGetsDefault(before, DefaultLevel);
    var ok := db.RequireDifficulty();
    assert ok;
  }

  /** `downgrade()`: the column goes, the rows and their other columns stay. */
  method Downgrade(db: Database)
    requires db.Valid() && db.difficulty != Absent
    modifies db
    ensures db.Valid() && db.difficulty == Absent
    ensures db.recipes == WithoutDifficulty(old(db.recipes))
    ensures db.tables == old(db.tables) && db.ingredients == old(db.ingredients) && db.links == old(db.links)
  {
    db.DropDifficultyColumn();
  }

  /** Upgrade then downgrade gives back the rows the database started with. */
  method UpgradeThenDowngrade(db: Database)
    requires db.Valid() && db.difficulty == Absent
    modifies db
    ensures db.Valid() && db.difficulty == Absent
    ensures db.recipes == old(db.recipes)
    ensures db.tables == old(db.tables) && db.ingredients == old(db.ingredients) && db.links == old(db.links)
  {
    ghost var before := db.recipes;
    Upgrade(db);
    assert db.recipes == FillMissing(before, DefaultLevel);
    Downgrade(db);
    DropUndoesFill(before, DefaultLevel);
  }
}
