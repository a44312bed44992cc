/**
 * The Exchange binding: its cached fields are the entity version and the entity name,
 * refreshed in that order, and its one submission enters a trade.
 */
module Exchange {

  import opened Wrappers
  import opened Pending
  import opened Refresh
  import opened EntityClient

  const GlobalMethods: seq<string> := ["updateEntityVersion", "updateEntityName"]
  /** Positions of the cached fields in the refresh list. */
  const VersionField: nat := 0
  const NameField: nat := 1

  const TradeSucceeded: string := "The trade was successfully deployed..."
  const TradeFailed: string := "The trade failed to deploy..."

  ghost predicate IsExchange(c: Client)
    reads c
  {
    c.Valid() && c.globalMethods == GlobalMethods
  }

  function EntityVersion(c: Client): string
    reads c
    requires IsExchange(c)
  {
    c.cache[VersionField]
  }

  function EntityName(c: Client): string
    reads c
    requires IsExchange(c)
  {
    c.cache[NameField]
  }

  /** A new Exchange client: both fields unset and nothing pending. */
  method New() returns (c: Client)
    ensures fresh(c) && IsExchange(c)
    ensures EntityVersion(c) == NotSetYet && EntityName(c) == NotSetYet
    ensures c.currentTransactions == [] && !c.passing
  {
    c := new Client(GlobalMethods);
  }

  /** Read the contract's version: on success it becomes the cached entity version. */
  method UpdateEntityVersion(c: Client, result: Option<string>) returns (ok: bool)
    requires IsExchange(c)
    modifies c
    ensures IsExchange(c) && ok == result.Some?
    ensures EntityVersion(c) == if ok then result.value else old(EntityVersion(c))
    ensures EntityName(c) == old(EntityName(c))
    ensures c.currentTransactions == old(c.currentTransactions)
    ensures c.passing == old(c.passing) && c.passIndex == old(c.passIndex)
    ensures c.passLength == old(c.passLength) && c.indexesToBeRemoved == old(c.indexesToBeRemoved)
  {
    ok := c.RefreshField(VersionField, result);
  }

  /** Read the contract's name: on success it becomes the cached entity name. */
  method UpdateEntityName(c: Client, result: Option<string>) returns (ok: bool)
    requires IsExchange(c)
    modifies c
    ensures IsExchange(c) && ok == result.Some?
    ensures EntityName(c) == if ok then result.value else old(EntityName(c))
    ensures EntityVersion(c) == old(EntityVersion(c))
    ensures c.currentTransactions == old(c.currentTransactions)
    ensures c.passing == old(c.passing) && c.passIndex == old(c.passIndex)
    ensures c.passLength == old(c.passLength) && c.indexesToBeRemoved == old(c.indexesToBeRemoved)
  {
    ok := c.RefreshField(NameField, result);
  }

  /**
   * Enter a trade. `submitted` is what the contract call reports: a transaction hash, or an
   * error. Only a hash enqueues a pending entry, with the trade messages; either way the
   * result is passed back unchanged.
   */
  method CreateTradeOrder(c: Client, submitted: Result<string>) returns (r: Result<string>)
    requires IsExchange(c)
    modifies c
    ensures IsExchange(c) && r == submitted
    ensures c.currentTransactions ==
      if submitted.Ok? then old(c.currentTransactions) + [Entry(submitted.value, TradeSucceeded, TradeFailed)]
      else old(c.currentTransactions)
    ensures c.cache == old(c.cache) && c.passing == old(c.passing) && c.passIndex == old(c.passIndex)
    ensures c.passLength == old(c.passLength) && c.indexesToBeRemoved == old(c.indexesToBeRemoved)
  {
    if submitted.Ok? {
      c.NewTransactionHash(Entry(submitted.value, TradeSucceeded, TradeFailed));
    }
    r := submitted;
  }

  /**
   * A refresh reads the version, then the name: the version changes exactly when its read
   * succeeds; the name changes only when both reads succeed, because a failed version read
   * ends the refresh before the name is read.
   */
  lemma VersionThenName(cache: seq<string>, version: Option<string>, name: Option<string>)
    requires |cache| == |GlobalMethods|
    ensures Refreshed(cache, [version, name])[VersionField] ==
      if version.Some? then version.value else cache[VersionField]
    ensures Refreshed(cache, [version, name])[NameField] ==
      if version.Some? && name.Some? then name.value else cache[NameField]
    ensures FirstFailure([version, name]) == 2 <==> version.Some? && name.Some?
  {
    assert [version, name][1..] == [name];
  }
}
