/**
 * The revision identifiers of alembic/versions as data: each revision names
 * the one it is applied after, and the three form one linear chain
 * 67e944f651e4 -> 364ef5b2c019 -> d622b5788e68.
 */
module MigrationChain {
  import opened Wrappers
  import DifficultyMigration
  import TemperatureMigration
  import IngredientsMigration

  datatype Revision = Revision(id: string, downRevision: Option<string>)

  /** The revisions in the order their files declare them. */
  const Revisions: seq<Revision> := [
    Revision(DifficultyMigration.Revision, DifficultyMigration.DownRevision),
    Revision(TemperatureMigration.Revision, TemperatureMigration.DownRevision),
    Revision(IngredientsMigration.Revision, IngredientsMigration.DownRevision)
  ]

  /** The ids of the k-th revision onwards, in list order. */
  function IdsFrom(revs: seq<Revision>, k: nat): (r: seq<string>)
    ensures |r| == if k <= |revs| then |revs| - k else 0
    decreases |revs| - k
  {
    if k >= |revs| then [] else [revs[k].id] + IdsFrom(revs, k + 1)
  }

  /** The revisions listed in chain order: ids are distinct, the first has no
      down-revision and each other one names its predecessor. */
  ghost predicate Linear(revs: seq<Revision>) {
    && (forall i, j | 0 <= i < j < |revs| :: revs[i].id != revs[j].id)
    && (|revs| > 0 ==> revs[0].downRevision == None)
    && (forall i | 0 < i < |revs| :: revs[i].downRevision == Some(revs[i - 1].id))
  }

  /** The first revision applied after `from` (None: after an empty database). */
  function Successor(revs: seq<Revision>, from: Option<string>): (r: Option<nat>)
    ensures r.Some? ==> r.value < |revs| && revs[r.value].downRevision == from
  {
    if revs == [] then None
    else if revs[0].downRevision == from then Some(0)
    else
      match Successor(revs[1..], from)
      case None => None
      case Some(k) => Some(k + 1)
  }

  /** The ids an upgrade from `from` to the head applies, following the
      down-revision links forward; `fuel` bounds the walk. */
  function UpgradePath(revs: seq<Revision>, from: Option<string>, fuel: nat): (r: seq<string>)
    ensures |r| <= fuel
    // The walk follows the down-revision links.
    ensures Chained(revs, from, r)
    decreases fuel
  {
    if fuel == 0 then []
    else
      match Successor(revs, from)
      case None => []
      case Some(k) =>
        var rest := UpgradePath(revs, Some(revs[k].id), fuel - 1);
        assert ([revs[k].id] + rest)[1..] == rest;
        [revs[k].id] + rest
  }

  /** Revision `id` is one of `revs` and names `from` as its down-revision. */
  ghost predicate AppliedAfter(revs: seq<Revision>, id: string, from: Option<string>) {
    exists k | 0 <= k < |revs| :: revs[k].id == id && revs[k].downRevision == from
  }

  /** Each id of `path` is a revision applied directly after the one before
      it, the first directly after `from`. */
  ghost predicate Chained(revs: seq<Revision>, from: Option<string>, path: seq<string>)
    decreases |path|
  {
    path == [] || (AppliedAfter(revs, path[0], from) && Chained(revs, Some(path[0]), path[1..]))
  }

  /** The revision a database is at once the first k revisions are applied. */
  function Applied(revs: seq<Revision>, k: nat): Option<string>
    requires k <= |revs|
  {
    if k == 0 then None else Some(revs[k - 1].id)
  }

  /** `Successor` finds the first revision naming `from`, and finds none
      exactly when no revision names it. */
  lemma {:induction false} SuccessorIsFirst(revs: seq<Revision>, from: Option<string>)
    ensures Successor(revs, from).Some? ==>
              forall j | 0 <= j < Successor(revs, from).value :: revs[j].downRevision != from
    ensures Successor(revs, from).None? <==> forall j | 0 <= j < |revs| :: revs[j].downRevision != from
    decreases |revs|
  {
    if revs != [] && revs[0].downRevision != from {
      SuccessorIsFirst(revs[1..], from);
      assert forall j | 1 <= j < |revs| :: revs[j] == revs[1..][j - 1];
    }
  }

  /** In a linear chain, the revision after the k-th one is the (k+1)-th, and
      nothing follows the last. */
  lemma SuccessorInChain(revs: seq<Revision>, k: nat)
    requires Linear(revs) && k <= |revs|
    ensures Successor(revs, Applied(revs, k)) == if k < |revs| then Some(k) else None
  {
    var from := Applied(revs, k);
    SuccessorIsFirst(revs, from);
    forall j | 0 <= j < |revs| && revs[j].downRevision == from
      ensures j == k
    {
      if j == 0 {
        assert from == None;
      } else {
        assert from == Some(revs[j - 1].id);
        assert k > 0 && revs[j - 1].id == revs[k - 1].id;
      }
    }
    if k < |revs| {
      assert revs[k].downRevision == from;
    }
  }

  /** One step of the walk: from the k-th revision it applies the k-th id. */
  lemma WalkStep(revs: seq<Revision>, k: nat)
    requires k < |revs| && Successor(revs, Applied(revs, k)) == Some(k)
    ensures UpgradePath(revs, Applied(revs, k), |revs| - k)
            == [revs[k].id] + UpgradePath(revs, Applied(revs, k + 1), |revs| - (k + 1))
  {
    assert Applied(revs, k + 1) == Some(revs[k].id);
  }

  /** When the revision after each of the k-th, ..., last is the next one in
      the list, walking forward from the k-th applies the rest in order. */
  lemma {:induction false} WalkFrom(revs: seq<Revision>, k: nat)
    requires k <= |revs|
    requires forall j | k <= j < |revs| :: Successor(revs, Applied(revs, j)) == Some(j)
    ensures UpgradePath(revs, Applied(revs, k), |revs| - k) == IdsFrom(revs, k)
    decreases |revs| - k
  {
    if k < |revs| {
      WalkFrom(revs, k + 1);
      WalkStep(revs, k);
    }
  }

  /** Walking a linear chain forward from the k-th revision visits the rest
      of it in order. */
  lemma WalkFollowsChain(revs: seq<Revision>, k: nat)
    requires Linear(revs) && k <= |revs|
    ensures UpgradePath(revs, Applied(revs, k), |revs| - k) == IdsFrom(revs, k)
  {
    forall j | k <= j < |revs|
      ensures Successor(revs, Applied(revs, j)) == Some(j)
    {
      SuccessorInChain(revs, j);
    }
    WalkFrom(revs, k);
  }

  /** The three revisions form one chain: one root, one head, applied in the
      order 67e944f651e4, 364ef5b2c019, d622b5788e68. */
  lemma ChainIsLinear()
    ensures Linear(Revisions)
    ensures UpgradePath(Revisions, None, |Revisions|) == ["67e944f651e4", "364ef5b2c019", "d622b5788e68"]
  {
    assert Linear(Revisions);
    WalkFollowsChain(Revisions, 0);
    assert IdsFrom(Revisions, 3) == [];
    assert IdsFrom(Revisions, 2) == ["d622b5788e68"];
    assert IdsFrom(Revisions, 1) == ["364ef5b2c019", "d622b5788e68"];
  }
}
