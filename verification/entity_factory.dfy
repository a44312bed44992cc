/**
 * The EntityFactory binding: its one cached field is the factory version, and its one
 * submission deploys a new entity.
 */
module EntityFactory {

  import opened Wrappers
  import opened Pending
  import opened Refresh
  import opened EntityClient

  const GlobalMethods: seq<string> := ["updateEntityFactoryVersion"]
  /** Position of the cached field in the refresh list. */
  const FactoryVersionField: nat := 0

  const EntitySucceeded: string := "The entity was successfully deployed..."
  const EntityFailed: string := "The entity failed to deploy..."

  ghost predicate IsEntityFactory(c: Client)
    reads c
  {
    c.Valid() && c.globalMethods == GlobalMethods
  }

  function EntityFactoryVersion(c: Client): string
    reads c
    requires IsEntityFactory(c)
  {
    c.cache[FactoryVersionField]
  }

  /** A new EntityFactory client: the factory version unset and nothing pending. */
  method New() returns (c: Client)
    ensures fresh(c) && IsEntityFactory(c)
    ensures EntityFactoryVersion(c) == NotSetYet
    ensures c.currentTransactions == [] && !c.passing
  {
    c := new Client(GlobalMethods);
  }

  /** Read FACTORY_VERSION: on success it becomes the cached factory version. */
  method UpdateEntityFactoryVersion(c: Client, result: Option<string>) returns (ok: bool)
    requires IsEntityFactory(c)
    modifies c
    ensures IsEntityFactory(c) && ok == result.Some?
    ensures EntityFactoryVersion(c) == if ok then result.value else old(EntityFactoryVersion(c))
    ensures c.currentTransactions == old(c.currentTransactions)
    ensures c.passing == old(c.passing) && c.passIndex == old(c.passIndex)
    ensures c.passLength == old(c.passLength) && c.indexesToBeRemoved == old(c.indexesToBeRemoved)
  {
    ok := c.RefreshField(FactoryVersionField, result);
  }

  /**
   * Deploy a new entity. `submitted` is what the contract call reports: a transaction hash,
   * or an error. Only a hash enqueues a pending entry, with the entity messages; either way
   * the result is passed back unchanged.
   */
  method DeployNewEntity(c: Client, submitted: Result<string>) returns (r: Result<string>)
    requires IsEntityFactory(c)
    modifies c
    ensures IsEntityFactory(c) && r == submitted
    ensures c.currentTransactions ==
      if submitted.Ok? then old(c.currentTransactions) + [Entry(submitted.value, EntitySucceeded, EntityFailed)]
      else old(c.currentTransactions)
    ensures c.cache == old(c.cache) && c.passing == old(c.passing) && c.passIndex == old(c.passIndex)
    ensures c.passLength == old(c.passLength) && c.indexesToBeRemoved == old(c.indexesToBeRemoved)
  {
    if submitted.Ok? {
      c.NewTransactionHash(Entry(submitted.value, EntitySucceeded, EntityFailed));
    }
    r := submitted;
  }

  /**
   * With a one-accessor refresh list, a refresh reads the factory version once: the field
   * changes, and the globals-changed callback is due, exactly when that read succeeds.
   */
  lemma SingleAccessorRefresh(cache: seq<string>, version: Option<string>)
    requires |cache| == |GlobalMethods|
    ensures Refreshed(cache, [version])[FactoryVersionField] ==
      if version.Some? then version.value else cache[FactoryVersionField]
    ensures FirstFailure([version]) == 1 <==> version.Some?
  {
    assert [version][1..] == [];
  }
}
