/** HidHideCLI/src/FilterDriverProxy.cpp: the client's cache of the driver's configuration, and the
    requests that carry it across. */
module FilterDriverProxy {
  import opened MultiString
  import opened ConfigStore
  import opened Commands
  import opened Driver

  /** A list the driver can encode into one buffer. */
  predicate Transferable(listed: seq<string>)
  {
    |Encode(listed)| <= STRSAFE_MAX_CCH
  }

  ghost predicate CanRead(device: ControlDevice)
    reads device
  {
    Transferable(device.whitelistedFullImageNames) && Transferable(device.blacklistedDeviceInstancePaths)
  }

  // ----- The requests -----

  method FetchBlacklist(device: ControlDevice) returns (deviceInstancePaths: set<string>)
    requires device.Valid() && Transferable(device.blacklistedDeviceInstancePaths)
    ensures deviceInstancePaths == Elements(device.blacklistedDeviceInstancePaths)
    ensures Elements(Stored(deviceInstancePaths)) == deviceInstancePaths
  {
    DecodedSurvives(device.registryBlacklist);
    var status, needed := device.GetBlacklist(null, 0);
    var buffer := new char[needed];
    status, needed := device.GetBlacklist(buffer, needed);
    assert buffer[..] == Encode(RegistryDecode(device.registryBlacklist));
    FetchedList(device.registryBlacklist);
    var list := MultiStringToStringList(buffer[..]);
    deviceInstancePaths := StringListToStringSet(list);
  }

  method FetchWhitelist(device: ControlDevice) returns (fullImageNames: set<string>)
    requires device.Valid() && Transferable(device.whitelistedFullImageNames)
    ensures fullImageNames == Elements(device.whitelistedFullImageNames)
    ensures Elements(Stored(fullImageNames)) == fullImageNames
  {
    DecodedSurvives(device.registryWhitelist);
    var status, needed := device.GetWhitelist(null, 0);
    var buffer := new char[needed];
    status, needed := device.GetWhitelist(buffer, needed);
    assert buffer[..] == Encode(RegistryDecode(device.registryWhitelist));
    FetchedList(device.registryWhitelist);
    var list := MultiStringToStringList(buffer[..]);
    fullImageNames := StringListToStringSet(list);
  }

  method StoreBlacklist(device: ControlDevice, deviceInstancePaths: set<string>)
    requires device.Valid()
    modifies device`registryBlacklist, device`blacklistedDeviceInstancePaths
    ensures device.Valid() && device.blacklistedDeviceInstancePaths == Stored(deviceInstancePaths)
  {
    var list := StringSetToStringList(deviceInstancePaths);
    var buffer := StringListToMultiString(list);
    device.SetBlacklist(buffer);
  }

  method StoreWhitelist(device: ControlDevice, fullImageNames: set<string>)
    requires device.Valid()
    modifies device`registryWhitelist, device`whitelistedFullImageNames
    modifies device.processes`contents, device.processes.pool`evaluationCache
    ensures device.Valid() && device.whitelistedFullImageNames == Stored(fullImageNames)
  {
    var list := StringSetToStringList(fullImageNames);
    var buffer := StringListToMultiString(list);
    device.SetWhitelist(buffer);
  }

  /** Writes only what differs from what the driver already holds. */
  method UpdateBlacklist(device: ControlDevice, deviceInstancePaths: set<string>)
    requires device.Valid() && Transferable(device.blacklistedDeviceInstancePaths)
    modifies device`registryBlacklist, device`blacklistedDeviceInstancePaths
    ensures device.Valid()
    ensures Elements(device.blacklistedDeviceInstancePaths) == Elements(Stored(deviceInstancePaths))
  {
    var fetched := FetchBlacklist(device);
    if fetched != deviceInstancePaths {
      StoreBlacklist(device, deviceInstancePaths);
    }
  }

  method UpdateWhitelist(device: ControlDevice, fullImageNames: set<string>)
    requires device.Valid() && Transferable(device.whitelistedFullImageNames)
    modifies device`registryWhitelist, device`whitelistedFullImageNames
    modifies device.processes`contents, device.processes.pool`evaluationCache
    ensures device.Valid()
    ensures Elements(device.whitelistedFullImageNames) == Elements(Stored(fullImageNames))
  {
    var fetched := FetchWhitelist(device);
    if fetched != fullImageNames {
      StoreWhitelist(device, fullImageNames);
    }
  }

  method UpdateFlags(device: ControlDevice, active: bool, inverse: bool)
    requires device.Valid()
    modifies device`active, device`whitelistedInverse
    ensures device.Valid() && device.active == active && device.whitelistedInverse == inverse
  {
    if device.active != active {
      device.SetActive(active);
    }
    if device.whitelistedInverse != inverse {
      device.SetInverse(inverse);
    }
  }

  // ----- What the driver keeps of a configuration -----

  /** A client that reads the configuration `c` back after setting it. */
  ghost function Surviving(c: Config): Config
  {
    c.(whitelist := Elements(Stored(c.whitelist)), blacklist := Elements(Stored(c.blacklist)))
  }

  lemma SurvivesClean(c: Config)
    ensures Surviving(c) == c <==> Cleanly(c.whitelist) && Cleanly(c.blacklist)
  {
    SetRoundTrip(c.whitelist);
    SetRoundTrip(c.blacklist);
  }

  /** What was read from a driver survives being set. */
  lemma DecodedSurvives(m: string)
    ensures Elements(Stored(Elements(RegistryDecode(m)))) == Elements(RegistryDecode(m))
  {
    RegistryDecodeClean(m);
    SetRoundTrip(Elements(RegistryDecode(m)));
  }

  /** The application itself is kept on the whitelist, or off it when the whitelist is inverse. */
  function WithApplication(p: Platform, c: Config): Config
  {
    var fullImageName := p.fullImageName(p.moduleFileName);
    if fullImageName == "" then c
    else if c.inverse then c.(whitelist := c.whitelist - {fullImageName})
    else c.(whitelist := c.whitelist + {fullImageName})
  }

  /** Whatever the sense of the whitelist, an application that has an image name passes it, and nothing
      else changes for anybody. */
  lemma ApplicationPasses(p: Platform, c: Config)
    ensures var name, d := p.fullImageName(p.moduleFileName), WithApplication(p, c);
      && d.active == c.active && d.inverse == c.inverse && d.blacklist == c.blacklist
      && (forall x | x != name :: x in d.whitelist <==> x in c.whitelist)
      && (if name == "" then d.whitelist == c.whitelist else (name in d.whitelist) != c.inverse)
  {
  }

  ghost function DeviceConfig(device: ControlDevice): Config
    reads device
  {
    Config(device.active, device.whitelistedInverse,
           Elements(device.whitelistedFullImageNames), Elements(device.blacklistedDeviceInstancePaths))
  }

  ghost predicate WroteAtMost(was: seq<string>, written: seq<string>, device: ControlDevice)
    reads device
  {
    device.whitelistedFullImageNames == was || device.whitelistedFullImageNames == written
  }

  /** What the constructor reads; it would survive being set. */
  method FetchConfig(device: ControlDevice) returns (c: Config)
    requires device.Valid() && CanRead(device)
    ensures c == DeviceConfig(device) && Surviving(c) == c
  {
    var b := FetchBlacklist(device);
    var w := FetchWhitelist(device);
    c := Config(device.active, device.whitelistedInverse, w, b);
  }

  // ----- The proxy -----

  class Proxy {
    const writeThrough: bool
    const device: ControlDevice
    var active: bool
    var blacklist: set<string>
    var whitelist: set<string>
    var inverse: bool

    ghost function Cache(): Config
      reads this
    {
      Config(active, inverse, whitelist, blacklist)
    }

    /** With write-through the driver holds the cache after every call. */
    ghost predicate Valid()
      reads this, device, device.processes, device.sessions, device.TableObjects(), device.SessionObjects()
    {
      && this !in device.TableObjects() + device.SessionObjects()
      && device.Valid()
      && (writeThrough ==> DeviceConfig(device) == Surviving(Cache()))
    }

    constructor (p: Platform, writeThrough: bool, device: ControlDevice)
      requires device.Valid()
      requires CanRead(device)
      modifies device`registryWhitelist, device`whitelistedFullImageNames
      modifies device.processes`contents, device.processes.pool`evaluationCache
      ensures Valid() && this.device == device && this.writeThrough == writeThrough
      ensures Cache() == WithApplication(p, old(DeviceConfig(device)))
      ensures DeviceConfig(device) == Surviving(Cache())
      ensures WroteAtMost(old(device.whitelistedFullImageNames), Stored(Cache().whitelist), device)
    {
      this.writeThrough, this.device := writeThrough, device;
      var c := FetchConfig(device);
      active, blacklist, whitelist, inverse := c.active, c.blacklist, c.whitelist, c.inverse;
      new;
      assert this !in device.TableObjects() + device.SessionObjects();
      RegisterApplication(p);
    }

    /** The change the constructor makes to the whitelist is applied immediately. */
    method RegisterApplication(p: Platform)
      requires Valid() && DeviceConfig(device) == Surviving(Cache())
      modifies this`whitelist, device`registryWhitelist, device`whitelistedFullImageNames
      modifies device.processes`contents, device.processes.pool`evaluationCache
      ensures Valid() && Cache() == WithApplication(p, old(Cache()))
      ensures DeviceConfig(device) == Surviving(Cache())
      ensures WroteAtMost(old(device.whitelistedFullImageNames), Stored(Cache().whitelist), device)
    {
      var fullImageName := p.fullImageName(p.moduleFileName);
      if fullImageName != "" {
        var before := whitelist;
        whitelist := if inverse then whitelist - {fullImageName} else whitelist + {fullImageName};
        if whitelist != before {
          StoreWhitelist(device, whitelist);
        }
      }
    }

    /** False when the class is using write-through: the source throws. */
    method ApplyConfigurationChanges() returns (applied: bool)
      requires Valid()
      requires writeThrough || CanRead(device)
      modifies device`active, device`whitelistedInverse
      modifies device`registryBlacklist, device`blacklistedDeviceInstancePaths
      modifies device`registryWhitelist, device`whitelistedFullImageNames
      modifies device.processes`contents, device.processes.pool`evaluationCache
      ensures Valid() && applied == !writeThrough
      ensures applied ==> DeviceConfig(device) == Surviving(Cache())
      ensures !applied ==> device.Value() == old(device.Value())
    {
      if writeThrough {
        return false;
      }
      UpdateWhitelist(device, whitelist);
      UpdateBlacklist(device, blacklist);
      UpdateFlags(device, active, inverse);
      applied := true;
    }

    method SetActive(active: bool)
      requires Valid()
      modifies this`active, device`active
      ensures Valid() && Cache() == old(Cache()).(active := active)
      ensures !writeThrough ==> device.Value() == old(device.Value())
    {
      if this.active != active {
        this.active := active;
        if writeThrough {
          device.SetActive(active);
        }
      }
    }

    method SetInverse(inverse: bool)
      requires Valid()
      modifies this`inverse, device`whitelistedInverse
      ensures Valid() && Cache() == old(Cache()).(inverse := inverse)
      ensures !writeThrough ==> device.Value() == old(device.Value())
    {
      if this.inverse != inverse {
        this.inverse := inverse;
        if writeThrough {
          device.SetInverse(inverse);
        }
      }
    }

    method SetBlacklist(deviceInstancePaths: set<string>)
      requires Valid()
      modifies this`blacklist, device`registryBlacklist, device`blacklistedDeviceInstancePaths
      ensures Valid() && Cache() == old(Cache()).(blacklist := deviceInstancePaths)
      ensures !writeThrough ==> device.Value() == old(device.Value())
    {
      if blacklist != deviceInstancePaths {
        blacklist := deviceInstancePaths;
        if writeThrough {
          StoreBlacklist(device, blacklist);
        }
      }
    }

    method SetWhitelist(fullImageNames: set<string>)
      requires Valid()
      modifies this`whitelist, device`registryWhitelist, device`whitelistedFullImageNames
      modifies device.processes`contents, device.processes.pool`evaluationCache
      ensures Valid() && Cache() == old(Cache()).(whitelist := fullImageNames)
      ensures !writeThrough ==> device.Value() == old(device.Value())
    {
      if whitelist != fullImageNames {
        whitelist := fullImageNames;
        if writeThrough {
          StoreWhitelist(device, whitelist);
        }
      }
    }

    method BlacklistAddEntry(deviceInstancePath: string)
      requires Valid()
      modifies this`blacklist, device`registryBlacklist, device`blacklistedDeviceInstancePaths
      ensures Valid() && Cache() == old(Cache()).(blacklist := old(blacklist) + {deviceInstancePath})
      ensures !writeThrough ==> device.Value() == old(device.Value())
    {
      if deviceInstancePath !in blacklist {
        blacklist := blacklist + {deviceInstancePath};
        if writeThrough {
          StoreBlacklist(device, blacklist);
        }
      }
    }

    method BlacklistDelEntry(deviceInstancePath: string)
      requires Valid()
      modifies this`blacklist, device`registryBlacklist, device`blacklistedDeviceInstancePaths
      ensures Valid() && Cache() == old(Cache()).(blacklist := old(blacklist) - {deviceInstancePath})
      ensures !writeThrough ==> device.Value() == old(device.Value())
    {
      if deviceInstancePath in blacklist {
        blacklist := blacklist - {deviceInstancePath};
        if writeThrough {
          StoreBlacklist(device, blacklist);
        }
      }
    }

    method WhitelistAddEntry(fullImageName: string)
      requires Valid()
      modifies this`whitelist, device`registryWhitelist, device`whitelistedFullImageNames
      modifies device.processes`contents, device.processes.pool`evaluationCache
      ensures Valid() && Cache() == old(Cache()).(whitelist := old(whitelist) + {fullImageName})
      ensures !writeThrough ==> device.Value() == old(device.Value())
    {
      if fullImageName !in whitelist {
        whitelist := whitelist + {fullImageName};
        if writeThrough {
          StoreWhitelist(device, whitelist);
        }
      }
    }

    method WhitelistDelEntry(fullImageName: string)
      requires Valid()
      modifies this`whitelist, device`registryWhitelist, device`whitelistedFullImageNames
      modifies device.processes`contents, device.processes.pool`evaluationCache
      ensures Valid() && Cache() == old(Cache()).(whitelist := old(whitelist) - {fullImageName})
      ensures !writeThrough ==> device.Value() == old(device.Value())
    {
      if fullImageName in whitelist {
        whitelist := whitelist - {fullImageName};
        if writeThrough {
          StoreWhitelist(device, whitelist);
        }
      }
    }
  }
}
