/** The request-scoped database session (app/core/dependencies.py, app/core/database.py). */
module Database {
  import opened Common

  /**
   One session against a store. Requests are executed one at a time, so the session is the
   only writer: `working` is what its own queries see, `committed` is what survives it.
   */
  class Session<Store> {
    var committed: Store
    var working: Store

    constructor (initial: Store)
      ensures committed == working == initial
    {
      committed, working := initial, initial;
    }

    method Commit()
      modifies this
      ensures committed == working == old(working)
    {
      committed := working;
    }

    method Rollback()
      modifies this
      ensures working == committed == old(committed)
    {
      working := committed;
    }
  }

  /** What a request reads from outside the database: the clock and the identifier generators. */
  class Environment {
    var clock: int
    var supply: nat

    constructor (clock: int, supply: nat)
      ensures this.clock == clock && this.supply == supply
    {
      this.clock, this.supply := clock, supply;
    }

    /** A value that was never drawn before: a UUIDv7, or a random refresh token. */
    method Fresh() returns (value: nat)
      modifies this`supply
      ensures value == old(supply) && supply == old(supply) + 1
    {
      value := supply;
      supply := supply + 1;
    }

    method Elapse(time: nat)
      modifies this`clock
      ensures clock == old(clock) + time
    {
      clock := clock + time;
    }
  }
}
