/** The disk cache settings and the process-wide counters of open body storages. */
module DiskCache {
  datatype Config = Config(enabled: bool, threshold: int, maxBytes: int)

  datatype Counters = Counters(diskFiles: int, diskBytes: int, memoryBuffers: int, memoryBytes: int)

  function AddDisk(c: Counters, size: int): Counters {
    c.(diskFiles := c.diskFiles + 1, diskBytes := c.diskBytes + size)
  }

  function AtLeastZero(x: int): int { if x < 0 then 0 else x }

  function DropDisk(c: Counters, size: int): Counters {
    c.(diskFiles := AtLeastZero(c.diskFiles - 1), diskBytes := AtLeastZero(c.diskBytes - size))
  }

  function AddMemory(c: Counters, size: int): Counters {
    c.(memoryBuffers := c.memoryBuffers + 1, memoryBytes := c.memoryBytes + size)
  }

  function DropMemory(c: Counters, size: int): Counters {
    c.(memoryBuffers := c.memoryBuffers - 1, memoryBytes := c.memoryBytes - size)
  }

  class Stats {
    var counters: Counters

    constructor ()
      ensures counters == Counters(0, 0, 0, 0)
    {
      counters := Counters(0, 0, 0, 0);
    }

    method IncrementDiskFiles(size: int)
      modifies this
      ensures counters == AddDisk(old(counters), size)
    {
      counters := counters.(diskFiles := counters.diskFiles + 1);
      counters := counters.(diskBytes := counters.diskBytes + size);
    }

    /** Each counter is stored as zero when the subtraction makes it negative. */
    method DecrementDiskFiles(size: int)
      modifies this
      ensures counters == DropDisk(old(counters), size)
    {
      counters := counters.(diskFiles := counters.diskFiles - 1);
      if counters.diskFiles < 0 { counters := counters.(diskFiles := 0); }
      counters := counters.(diskBytes := counters.diskBytes - size);
      if counters.diskBytes < 0 { counters := counters.(diskBytes := 0); }
    }

    method IncrementMemoryBuffers(size: int)
      modifies this
      ensures counters == AddMemory(old(counters), size)
    {
      counters := counters.(memoryBuffers := counters.memoryBuffers + 1);
      counters := counters.(memoryBytes := counters.memoryBytes + size);
    }

    method DecrementMemoryBuffers(size: int)
      modifies this
      ensures counters == DropMemory(old(counters), size)
    {
      counters := counters.(memoryBuffers := counters.memoryBuffers - 1);
      counters := counters.(memoryBytes := counters.memoryBytes - size);
    }

    predicate IsDiskCacheAvailable(config: Config, size: int)
      reads this
    {
      config.enabled && counters.diskBytes + size <= config.maxBytes
    }
  }
}
