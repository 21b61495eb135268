# Coffee recipe store and its migrations, in Dafny

This project models the persistence core of a small coffee-recipe application.

- **The dual store of `db.py`.** `create_recipe` writes the full recipe payload to a JSON file in the recipes directory. It then inserts an index row (name, author, file path, creation time) into the SQLite `recipes` table and returns the new row id. `get_recipe` looks the row up by id, loads its file and merges `id` and `created_at` into the loaded document.
- **The three alembic migrations and their chain.** Together they evolve the stored data:
  - `67e944f651e4` (root) adds `recipes.difficulty_level`, backfills it with `'intermediate'` and makes it NOT NULL. Its downgrade drops the column.
  - `364ef5b2c019` rewrites the `temperature` of every `.json` recipe file as the string of the value rounded half-to-even to two decimal places. Its downgrade turns it back into a number with `float()`.
  - `d622b5788e68` creates `ingredients` and `recipe_ingredients` and seeds three coffee beans. Its downgrade drops the link table first, then `ingredients`.

Modules:

- `Wrappers`: `Option` and `Result`.
- `Decimals`: the part of Python's `decimal` the temperature migration uses:
  - the numeral grammar `Decimal(s)` accepts;
  - `round(d, 2)` as a quantize with half-to-even rounding;
  - `str` of a two-place decimal.

  A numeral is `(negative, coef, exp)`, so the signed zero `-0.00` is kept.
- `Documents`: JSON values, a recipe document (`map<string, Json>`), a file's content as `json.load` sees it, the `.json` suffix test, and the exceptions that escape.
- `RecipeStore`: the `CoffeeDB` class.
  - Its fields are the recipes directory (a map from file name to content), the `recipes` table (a sequence of rows) and the next auto-increment id.
  - `CreateRecipe` and `GetRecipe` are proved against the specification functions `CreateFailure` and `Retrieve`.
- `TemperatureMigration`: the per-value, per-document and per-directory conversions.
  - The directory loop is a `while` loop over the pending file names.
  - Files are taken in an unspecified order (`:|`), because `os.listdir` promises none.
  - The loop stops at the first file that raises and leaves the files already rewritten as they are. A ghost output, `visited`, records the names in the order the loop took them, so the contract can say which files were reached.
- `Schema`: the relational state the migrations act on, as a `Database` class. Its methods are the `op` steps the migrations issue.
- `DifficultyMigration`, `IngredientsMigration`: each migration's `upgrade` and `downgrade`, composed from those steps.
- `MigrationChain`: the revision identifiers as data, and the upgrade path alembic follows through them.

Two facts of `db.py` shape the store model:

- `create_recipe` stores only `name`, `author` and `file_path` in the row. There is no `author_id` and no `difficulty_level`.
- `get_recipe` merges only `id` and `created_at` into the loaded document.

## Model

| member | source | states |
|---|---|---|
| Decimals.Round2 | alembic/versions/364ef5b2c019_change_temperature_to_decimal.py:37 | `round(d, 2)` gives exponent -2 and keeps the sign. It is exact when `d` has at most two places. Otherwise the result is a nearest multiple of the hundredth, and a tie goes to the even coefficient. |
| Decimals.RoundQuotient | alembic/versions/364ef5b2c019_change_temperature_to_decimal.py:37 | `c / p` rounded half-to-even: `q * p` is within `p / 2` of `c`, and on an exact half `q` is even |
| Decimals.NatToString | alembic/versions/364ef5b2c019_change_temperature_to_decimal.py:37 | `str` of the integer part is a digit string with no leading zero, and its value is the number |
| Decimals.Render | alembic/versions/364ef5b2c019_change_temperature_to_decimal.py:37 | `str` of a two-place decimal is plain notation: an optional '-', an integer part without a leading zero, '.', exactly two digits |
| Decimals.FixedTwoPlacesParses | alembic/versions/364ef5b2c019_change_temperature_to_decimal.py:37 | every text of that two-place form is a numeral `Decimal` accepts, with exponent -2 |
| Decimals.ParseRender | alembic/versions/364ef5b2c019_change_temperature_to_decimal.py:37 | `Decimal(str(d)) == d` for every two-place decimal, negative zero included |
| Decimals.ParseDecimal | alembic/versions/364ef5b2c019_change_temperature_to_decimal.py:37 | `Decimal(s)` of an accepted numeral is negative exactly when the text starts with '-'; which texts it accepts is stated by `FixedTwoPlacesParses`, `ParseFixedPoint`, `ParseRender` and `NoDigitNoNumeral` |
| Decimals.ParseFixedPoint | alembic/versions/364ef5b2c019_change_temperature_to_decimal.py:37 | fixed-point text reads back as the value of its digits, with exponent minus the number of fractional digits |
| Decimals.NoDigitNoNumeral | alembic/versions/364ef5b2c019_change_temperature_to_decimal.py:37 | `Decimal(s)` rejects any text without a digit |
| Decimals.RoundFixesTwoPlaces | alembic/versions/364ef5b2c019_change_temperature_to_decimal.py:37 | rounding leaves a value that already has two places unchanged |
| Decimals.RoundIsClose | alembic/versions/364ef5b2c019_change_temperature_to_decimal.py:37 | rounding moves the value by at most half a hundredth |
| TemperatureMigration.Normalize | alembic/versions/364ef5b2c019_change_temperature_to_decimal.py:37 | `str(round(Decimal(str(v)), 2))` succeeds exactly when the value spells a numeral (a number, or a string that parses; `str` of a boolean, null, list or object never does); otherwise it raises InvalidOperation. The new value is a string with exactly two places that reads back as the rounded numeral. |
| TemperatureMigration.Restore | alembic/versions/364ef5b2c019_change_temperature_to_decimal.py:50 | `float(v)` always gives a number when it succeeds. A number stays as it is. Numbers and booleans always convert, and so does every text in the two-place form the upgrade writes. |
| TemperatureMigration.RestoreReadsRender | alembic/versions/364ef5b2c019_change_temperature_to_decimal.py:37-50 | the downgrade reads back exactly the numeral the upgrade wrote |
| TemperatureMigration.ConvertDocument | alembic/versions/364ef5b2c019_change_temperature_to_decimal.py:33-37 | Only "temperature" changes, and the keys stay the same. A document without it comes back as it was. The document converts exactly when its temperature does. |
| Documents.OccursAtSomePosition | alembic/versions/364ef5b2c019_change_temperature_to_decimal.py:36 | `key in s` on strings holds exactly when `key` appears in `s` starting at some position |
| TemperatureMigration.Contains | alembic/versions/364ef5b2c019_change_temperature_to_decimal.py:36 | `'temperature' in data` raises (not iterable) exactly for a number, boolean or null; on a string it is true exactly when the key is a substring |
| TemperatureMigration.ConvertFile | alembic/versions/364ef5b2c019_change_temperature_to_decimal.py:33-40 | A file converts only if `json.load` reads it. A file without an object holding "temperature", when it converts, is written back as it was; `NonObjectFiles` says which such files convert. An object with it converts exactly when `ConvertDocument` does, and the file then holds the converted object. |
| TemperatureMigration.NonObjectFiles | alembic/versions/364ef5b2c019_change_temperature_to_decimal.py:33-37 | The `in` test on a top-level value that is not an object behaves as follows. A list or string without "temperature" passes unchanged. One containing it raises when indexed by a string. A number, boolean or null raises because it is not iterable. |
| TemperatureMigration.ConvertedAll | alembic/versions/364ef5b2c019_change_temperature_to_decimal.py:30-40 | the directory after a complete run: the same names, every `.json` file converted, other files untouched |
| TemperatureMigration.RewriteJsonFiles | alembic/versions/364ef5b2c019_change_temperature_to_decimal.py:30-40 | For every listing order, with `visited` the distinct names in the order the loop took them: files it did not reach and files without the `.json` suffix (`Documents.HasJsonSuffix`, the `filename.endswith('.json')` test) are unchanged, and every `.json` file it reached is converted, except the one it raised on. The loop completes exactly when every `.json` file converts; it has then reached every file and the result is `ConvertedAll`. Otherwise it raises on the last file it reached, a `.json` file whose conversion fails, and that file is left unchanged. |
| TemperatureMigration.RaisedKeepsEarlierFiles | alembic/versions/364ef5b2c019_change_temperature_to_decimal.py:30-40 | when the loop raises, nothing is rolled back: every `.json` file reached before the failing one stays converted |
| TemperatureMigration.Upgrade | alembic/versions/364ef5b2c019_change_temperature_to_decimal.py:27-40 | the rewrite loop with the normalising conversion, with the same guarantee over the files it reached |
| TemperatureMigration.Downgrade | alembic/versions/364ef5b2c019_change_temperature_to_decimal.py:42-53 | the rewrite loop with the `float()` conversion, with the same guarantee over the files it reached |
| TemperatureMigration.NormalizeIdempotent | alembic/versions/364ef5b2c019_change_temperature_to_decimal.py:37 | normalising a normalised temperature gives the same string |
| TemperatureMigration.UpgradeDocumentIdempotent | alembic/versions/364ef5b2c019_change_temperature_to_decimal.py:33-37 | upgrading a document twice gives what upgrading it once gives |
| TemperatureMigration.UpgradeIdempotent | alembic/versions/364ef5b2c019_change_temperature_to_decimal.py:27-40 | a directory the upgrade has converted converts again, to itself |
| TemperatureMigration.RestoreAfterNormalize | alembic/versions/364ef5b2c019_change_temperature_to_decimal.py:42-50 | downgrade after upgrade gives the rounded number back, not the original |
| TemperatureMigration.NotAnInverse | alembic/versions/364ef5b2c019_change_temperature_to_decimal.py:42-50 | 92.456 comes back as 92.46, a different value: downgrade does not undo upgrade |
| TemperatureMigration.DocumentWithoutTemperature | alembic/versions/364ef5b2c019_change_temperature_to_decimal.py:36 | a `.json` document without "temperature" is written back unchanged, in both directions |
| TemperatureMigration.ExampleRoundsUp | alembic/versions/364ef5b2c019_change_temperature_to_decimal.py:37 | 92.456 becomes "92.46" |
| TemperatureMigration.ExamplePadsZero | alembic/versions/364ef5b2c019_change_temperature_to_decimal.py:37 | 93.5 becomes "93.50" |
| TemperatureMigration.RoundTie | alembic/versions/364ef5b2c019_change_temperature_to_decimal.py:37 | a thousandths tie rounds to the even hundredth |
| TemperatureMigration.ExampleTieDown | alembic/versions/364ef5b2c019_change_temperature_to_decimal.py:37 | 0.125 becomes "0.12" (half-to-even, not half-up) |
| TemperatureMigration.ExampleTieUp | alembic/versions/364ef5b2c019_change_temperature_to_decimal.py:37 | 0.135 becomes "0.14" |
| TemperatureMigration.ExampleSignedZero | alembic/versions/364ef5b2c019_change_temperature_to_decimal.py:37 | -0.001 becomes "-0.00" |
| TemperatureMigration.NonNumericRaises | alembic/versions/364ef5b2c019_change_temperature_to_decimal.py:37 | a temperature string without a digit makes the upgrade raise InvalidOperation |
| RecipeStore.FileNameFor | db.py:47-48 | the file name built from the hash ends in `.json`, so the temperature migration passes its suffix test when it lists the same directory |
| RecipeStore.InsertError | db.py:63 | The insert fails exactly when name or author cannot be bound, or name is null, or the database fails. A value cannot be bound if it is a list, an object, or an integer outside SQLite's signed 64-bit range. The `name` column is NOT NULL (db.py:29) and `author` is nullable. |
| RecipeStore.CreateFailure | db.py:45-72 | `create_recipe` fails exactly when the name is missing, or the write fails, or the insert fails. It raises KeyError('name') exactly when the name is missing, and the write error exactly when the write fails. |
| RecipeStore.CreateFailureAsWritten | db.py:56-74 | The call fails on the same inputs as `CreateFailure`. Its error differs from the intended one exactly when the failure comes before the session is opened. Any error other than the intended one is the UnboundLocalError that the `finally` block raises on `session.close()`. |
| RecipeStore.MissingNameMasked | db.py:47-74 | for the empty payload, the intended error is KeyError('name'), but the code as written raises UnboundLocalError |
| RecipeStore.FindRow | db.py:82-84 | `.first()` of the id query: the first row with that id, or none exactly when no row has it |
| RecipeStore.Merge | db.py:94-97 | `update` of the loaded document: every key of the document plus `id` and `created_at`; those two are overwritten, and every other key keeps its value |
| RecipeStore.Retrieve | db.py:80-99 | Gives None exactly when no row has the id. A found recipe carries that id. An error happens only for an existing row. Which error it is, for each state of the row's file, is stated by `RetrieveExistingRow`. |
| RecipeStore.RetrieveExistingRow | db.py:80-99 | For an existing row: a file missing from the directory gives FileNotFoundError for its path. Text `json.load` rejects gives a decode error. A top-level value that is not an object gives the AttributeError of `update`. An object gives the stored document with the row's id and creation time merged in. |
| RecipeStore.MissingReadsNoFile | db.py:86-87 | an unknown id returns None whatever the directory holds: no file is read |
| RecipeStore.FindAfterAppend | db.py:82-84 | after an insert under a fresh, larger id, that id finds the new row and every other id finds what it found before |
| RecipeStore.CreateThenRetrieve | db.py:41-99 | getting a just-created recipe returns its payload with `id` and `created_at` merged in |
| RecipeStore.CreateLeavesOthers | db.py:41-67 | when no existing row points to the new file name, creating a recipe changes what no other id retrieves |
| RecipeStore.CollisionReplacesDocument | db.py:47-53 | if the hashed file name equals an existing recipe's file, that recipe now retrieves the new document |
| RecipeStore.NextId | db.py:28 | the id the next insert gets is at least 1, above every id of a table in id order, and one more than an existing id unless the table is empty |
| RecipeStore.AppendKeepsInvariant | db.py:63-64 | inserting a named row under the next id keeps the table invariant |
| RecipeStore.CoffeeDB.constructor | db.py:36-39 | a store over an existing directory and an existing `recipes` table, which `create_all` keeps; the next id follows the largest one |
| RecipeStore.CoffeeDB.CreateRecipe | db.py:41-74 | Keeps the invariant. A missing name or failed write changes nothing. Otherwise the file is written and kept whatever the insert does. A failed insert adds no row. On success the row is appended, its author taken from the payload or "Anonymous" when it has none (`AuthorOf`), and the id returned is above every earlier one. Getting that id returns the payload. Unless an existing row points to the new file name, no other recipe changes. |
| RecipeStore.CoffeeDB.GetRecipe | db.py:76-105 | the linear search over the table followed by one file read returns exactly `Retrieve` |
| Schema.FillMissing | alembic/versions/67e944f651e4_add_difficulty_level.py:27-29 | the backfill sets every NULL `difficulty_level` to the level, keeps every non-NULL one and every other column, and leaves no NULL |
| Schema.WithoutDifficulty | alembic/versions/67e944f651e4_add_difficulty_level.py:39-40 | dropping the column keeps every row and every other column |
| Schema.FreshColumnGetsDefault | alembic/versions/67e944f651e4_add_difficulty_level.py:24-29 | on a column just added, every row gets the default |
| Schema.DropUndoesFill | alembic/versions/67e944f651e4_add_difficulty_level.py:21-40 | dropping the column after the backfill gives back the rows the table had |
| Schema.IdsKept | alembic/versions/67e944f651e4_add_difficulty_level.py:27-40 | neither the backfill nor the drop changes which recipe ids exist |
| Schema.Database.constructor | db.py:27-33 | the `recipes` table as `db.py` declares it, with no `difficulty_level`, no ingredient tables and no link rows |
| Schema.Database.AddDifficultyColumn | alembic/versions/67e944f651e4_add_difficulty_level.py:23-24 | the column exists and is nullable; every row is NULL there and the rows are unchanged |
| Schema.Database.FillMissingDifficulty | alembic/versions/67e944f651e4_add_difficulty_level.py:27-29 | the rows become `FillMissing` of the old rows and the invariant holds |
| Schema.Database.RequireDifficulty | alembic/versions/67e944f651e4_add_difficulty_level.py:32-35 | tightening to NOT NULL succeeds exactly when no row is NULL, and only then changes the column state |
| Schema.Database.DropDifficultyColumn | alembic/versions/67e944f651e4_add_difficulty_level.py:39-40 | the column is gone and the rows are `WithoutDifficulty` of the old rows |
| Schema.Database.CreateIngredientsTable | alembic/versions/d622b5788e68_add_ingredients_tables.py:23-31 | `ingredients` exists, empty; nothing else changes |
| Schema.Database.CreateLinksTable | alembic/versions/d622b5788e68_add_ingredients_tables.py:34-41 | `recipe_ingredients` exists, empty, beside `ingredients`; nothing else changes |
| Schema.Database.InsertIngredient | alembic/versions/d622b5788e68_add_ingredients_tables.py:44-49 | one row is appended under the next integer key, and the link references stay valid |
| Schema.Database.DropLinksTable | alembic/versions/d622b5788e68_add_ingredients_tables.py:52 | `recipe_ingredients` and its rows are gone; nothing else changes |
| Schema.Database.DropIngredientsTable | alembic/versions/d622b5788e68_add_ingredients_tables.py:53 | `ingredients` and its rows are gone; nothing else changes |
| DifficultyMigration.Upgrade | alembic/versions/67e944f651e4_add_difficulty_level.py:21-35 | Every existing row ends with `difficulty_level = 'intermediate'` and its other columns unchanged, and the column is NOT NULL. The NOT NULL step never refuses. |
| DifficultyMigration.Downgrade | alembic/versions/67e944f651e4_add_difficulty_level.py:38-40 | the column is dropped and the rows keep their other columns |
| DifficultyMigration.UpgradeThenDowngrade | alembic/versions/67e944f651e4_add_difficulty_level.py:21-40 | downgrade after upgrade gives back exactly the rows and tables the database had |
| IngredientsMigration.Seeds | alembic/versions/d622b5788e68_add_ingredients_tables.py:44-49 | the seed rows: three beans with ids 1 to 3, each with an origin and a roast level, stamped with the server's time |
| IngredientsMigration.Upgrade | alembic/versions/d622b5788e68_add_ingredients_tables.py:21-49 | Both tables exist. `ingredients` holds exactly the three seed beans with ids 1-3, and there are no links. The recipes are unchanged. |
| IngredientsMigration.Downgrade | alembic/versions/d622b5788e68_add_ingredients_tables.py:51-53 | Both tables are dropped: the link table first, then `ingredients`. The recipes are unchanged. |
| IngredientsMigration.UpgradeThenDowngrade | alembic/versions/d622b5788e68_add_ingredients_tables.py:21-53 | downgrade after upgrade gives back the tables and rows the database had; the seed rows go with the table |
| MigrationChain.Successor | alembic/versions/364ef5b2c019_change_temperature_to_decimal.py:21-22 | the revision found is one of the list and names the given revision as its down-revision |
| MigrationChain.SuccessorIsFirst | alembic/versions/364ef5b2c019_change_temperature_to_decimal.py:21-22 | the revision found is the first that names the given one, and none is found exactly when no revision names it |
| MigrationChain.UpgradePath | alembic/versions/364ef5b2c019_change_temperature_to_decimal.py:21-22 | the walk takes at most `fuel` steps; its first revision names the starting revision as its down-revision, and each later one names the revision before it |
| MigrationChain.SuccessorInChain | alembic/versions/364ef5b2c019_change_temperature_to_decimal.py:21-22 | in a linear chain, the revision after the k-th is the (k+1)-th, and nothing follows the head |
| MigrationChain.WalkStep | alembic/versions/364ef5b2c019_change_temperature_to_decimal.py:21-22 | one step of the upgrade walk applies the next revision |
| MigrationChain.WalkFrom | alembic/versions/364ef5b2c019_change_temperature_to_decimal.py:21-22 | when each revision from the k-th on is followed by the next one in the list, the walk from the k-th applies the rest of the list in order |
| MigrationChain.WalkFollowsChain | alembic/versions/364ef5b2c019_change_temperature_to_decimal.py:21-22 | walking a linear chain forward from the k-th revision applies the rest of it in order |
| MigrationChain.ChainIsLinear | alembic/versions/d622b5788e68_add_ingredients_tables.py:15-16 | the three revisions form one chain with root 67e944f651e4; an upgrade from a database at no revision applies 67e944f651e4, 364ef5b2c019, d622b5788e68 in that order |

## Left out

- The SQLAlchemy engine, sessions, logging, and directory creation at import time are left out. Commit and rollback are taken as all-or-nothing for the single insert.
- The forward walk alembic takes through the revision chain is modelled (`MigrationChain.UpgradePath`). Left out are the `alembic_version` bookkeeping and the runner's command line. Each migration's precondition is that the database is at its down-revision's schema.
- `coffee_cli.py` and the `__main__` demonstration in `db.py` are not part of this model.
- The hash and the clock are parameters.
  - The salted `hash(...)` of the name and the time is the `stamp` parameter of `CreateRecipe`.
  - `datetime.utcnow()` and the server's `now()` are `now` parameters.
- Failures the data does not explain are boolean parameters: `writeFault` for the file write and `dbFault` for the insert and commit.
- Partial file writes are not modelled. A failed `json.dump` is taken to leave the file as it was.
- The directory prefix of `file_path` is dropped. A row stores the file name, which is the directory map's key.
- The recipes directory is one map shared by the store and the temperature migration. `db.py` uses the absolute `RECIPES_DIR` next to `db.py` (db.py:13-16); the migration lists the relative `data/recipes` (364ef5b2c019_change_temperature_to_decimal.py:29, :43). They are the same directory only when alembic runs from the project root; the model assumes it does.
- JSON text, indentation, key order and `float` repr are abstracted.
  - A document is the value `json.load` returns.
  - A file whose content `json.load` rejects is `Unreadable`. Any other file holds the top-level value `json.load` returns, object or not.
  - A JSON number is held as the decimal numeral `str()` prints for it.
  - `float()` in the downgrade is taken to be exact (binary rounding of the float is not modelled).
- TemperatureMigration.Restore: keeps the digits of the numeral it reads, where `json.dump` of the float writes its shortest repr. For example, 93 stays 93 rather than 93.0, and "93.50" gives 93.50 rather than 93.5. The values are equal.
- `Decimal` details left out:
  - the 28-digit context precision, so the InvalidOperation that quantize raises on very long coefficients is not modelled;
  - NaN and Infinity;
  - surrounding whitespace, underscores and non-ASCII digits in numerals.
- Foreign keys of `recipe_ingredients` are kept as a declared invariant, not enforced per statement. Inserting link rows is not an operation of the core.
- The `recipes` table of `RecipeStore` has no `difficulty_level`, as `db.py` declares it. The `Schema` model of the migrated table is separate.
  - After revision 67e944f651e4 the column is NOT NULL without a default.
  - `db.py`'s insert does not set it, so against a migrated database every `create_recipe` insert would fail.
  - The two models are not composed.
- RecipeStore.CoffeeDB.constructor: takes the existing table in id order with no NULL name. It does not model explicit ids below 1, and it does not model SQLite's random choice of id once the largest rowid is reached.
- Schema.Database.DropIngredientsTable: requires that `recipe_ingredients` is already gone. SQLite without foreign-key enforcement would drop the table regardless; the only caller drops the link table first.
- RecipeStore.CoffeeDB.CreateRecipe: follows the intended error (`CreateFailure`), not the UnboundLocalError the code raises when it fails before opening a session (see Findings).

## Findings

| source | as written | input that shows it | evidently intended | confidence | as-written member | corrected member |
|---|---|---|---|---|---|---|
| db.py:56-74 | `session` is first assigned after the name is read and the file written. When either of those raises, `session.rollback()` in the handler and `session.close()` in `finally` meet an unbound local and raise UnboundLocalError, which replaces the original exception. | `create_recipe({})`, or any payload whose file cannot be written | the caller sees the error that stopped the call: KeyError('name'), or the write error | high; not executed | RecipeStore.CreateFailureAsWritten | RecipeStore.CreateFailure |
