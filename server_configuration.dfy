/** The server configuration category and its scoped change of the anonymous
    user access mode: SetAccessMode switches the mode and hands back a
    restorer that puts the previous mode back when disposed. */
module ServerConfigurations {
  import opened Wrappers

  /** A value of AnonymousUserAccessModeValues; the enumeration's members are
      not part of this model, only their identity. */
  type AccessMode = int

  class ServerConfiguration {
    var maxTimeForTaskToWaitForDatabaseToLoad: int
    var name: Option<string>
    var anonymousUserAccessMode: AccessMode
    var allowAnonymousUserToAccessTheServer: bool

    constructor (maxTime: int, name: Option<string>, mode: AccessMode, allowAnonymous: bool)
      ensures maxTimeForTaskToWaitForDatabaseToLoad == maxTime && this.name == name
      ensures anonymousUserAccessMode == mode && allowAnonymousUserToAccessTheServer == allowAnonymous
    {
      maxTimeForTaskToWaitForDatabaseToLoad := maxTime;
      this.name := name;
      anonymousUserAccessMode := mode;
      allowAnonymousUserToAccessTheServer := allowAnonymous;
    }

    /** SetAccessMode: switches the mode and returns a restorer holding the
        mode it replaced. */
    method SetAccessMode(newVal: AccessMode) returns (restore: RestoreAccessMode)
      modifies this
      ensures anonymousUserAccessMode == newVal
      ensures restore == RestoreAccessMode(this, old(anonymousUserAccessMode))
      ensures maxTimeForTaskToWaitForDatabaseToLoad == old(maxTimeForTaskToWaitForDatabaseToLoad)
      ensures name == old(name) && allowAnonymousUserToAccessTheServer == old(allowAnonymousUserToAccessTheServer)
    {
      var previous := anonymousUserAccessMode;
      anonymousUserAccessMode := newVal;
      return RestoreAccessMode(this, previous);
    }
  }

  /** The restorer is a value: the configuration it belongs to and the mode
      to put back. */
  datatype RestoreAccessMode = RestoreAccessMode(parent: ServerConfiguration, valToRestore: AccessMode)
  {
    /** Dispose: puts the held mode back; nothing else changes. */
    method Dispose()
      modifies parent
      ensures parent.anonymousUserAccessMode == valToRestore
      ensures parent.maxTimeForTaskToWaitForDatabaseToLoad == old(parent.maxTimeForTaskToWaitForDatabaseToLoad)
      ensures parent.name == old(parent.name)
      ensures parent.allowAnonymousUserToAccessTheServer == old(parent.allowAnonymousUserToAccessTheServer)
    {
      parent.anonymousUserAccessMode := valToRestore;
    }
  }

  /** A scope: set the mode, run, dispose. The mode inside is the one set,
      and afterwards the configuration is exactly as before. */
  method Scoped(config: ServerConfiguration, mode: AccessMode) returns (inside: AccessMode)
    modifies config
    ensures inside == mode
    ensures config.anonymousUserAccessMode == old(config.anonymousUserAccessMode)
    ensures config.name == old(config.name)
    ensures config.allowAnonymousUserToAccessTheServer == old(config.allowAnonymousUserToAccessTheServer)
    ensures config.maxTimeForTaskToWaitForDatabaseToLoad == old(config.maxTimeForTaskToWaitForDatabaseToLoad)
  {
    var restore := config.SetAccessMode(mode);
    inside := config.anonymousUserAccessMode;
    restore.Dispose();
  }

  /** Two nested scopes disposed innermost first: the inner scope sees the
      inner mode, the outer scope sees the outer mode again once the inner one
      is disposed, and the original mode is back at the end. */
  method NestedScopes(config: ServerConfiguration, outer: AccessMode, inner: AccessMode)
    returns (duringInner: AccessMode, afterInner: AccessMode)
    modifies config
    ensures duringInner == inner && afterInner == outer
    ensures config.anonymousUserAccessMode == old(config.anonymousUserAccessMode)
    ensures config.name == old(config.name)
    ensures config.allowAnonymousUserToAccessTheServer == old(config.allowAnonymousUserToAccessTheServer)
  {
    var outerRestore := config.SetAccessMode(outer);
    var innerRestore := config.SetAccessMode(inner);
    duringInner := config.anonymousUserAccessMode;
    innerRestore.Dispose();
    afterInner := config.anonymousUserAccessMode;
    outerRestore.Dispose();
  }

  /** Disposing the same restorer twice leaves the mode it restored the first
      time, whatever was set in between by someone else. */
  method DisposeTwice(config: ServerConfiguration, mode: AccessMode, meanwhile: AccessMode)
    returns (afterFirst: AccessMode)
    modifies config
    ensures afterFirst == old(config.anonymousUserAccessMode)
    ensures config.anonymousUserAccessMode == old(config.anonymousUserAccessMode)
  {
    var restore := config.SetAccessMode(mode);
    restore.Dispose();
    afterFirst := config.anonymousUserAccessMode;
    config.anonymousUserAccessMode := meanwhile;
    restore.Dispose();
  }
}
