/** The loaded process (core/hle/kernel/process.h). */
module Processes {
  import opened Results
  import opened Geometry
  import opened FlatMaps
  import opened AddressSpaces
  import opened MemoryKernel
  import opened TlsAllocators

  /** One NSO image in memory. */
  datatype Module = Module(baseGva: nat, imageSize: nat, text: Region, rodata: Region, data: Region)

  class Process {
    var space: AddressSpace
    var modules: seq<Module>
    var entryPoint: nat
    var mainStack: Region
    var tls: TlsAllocator?
    var mainThreadTls: nat
    var codeBytesMapped: nat
    var heapSize: nat
    var borrows: seq<MemoryBorrow>

    // What the bootstrap mapped, and the first physical page it did not use.
    ghost var boot: FlatMap
    ghost var p0: nat

    /** A process in which nothing is loaded. */
    ghost predicate IsZero()
      reads this
    {
      && modules == [] && entryPoint == 0 && mainStack == Region(0, 0) && tls == null && mainThreadTls == 0
      && codeBytesMapped == 0 && heapSize == 0 && borrows == [] && boot == map[] && p0 == 0
    }

    constructor ()
      ensures IsZero()
    {
      space := Carve(0, 0);
      modules, entryPoint, mainStack := [], 0, Region(0, 0);
      tls, mainThreadTls, codeBytesMapped := null, 0, 0;
      heapSize, borrows := 0, [];
      boot, p0 := map[], 0;
    }

    /** memset(process, 0) */
    method Clear()
      modifies this
      ensures IsZero()
    {
      space := Carve(0, 0);
      modules, entryPoint, mainStack := [], 0, Region(0, 0);
      tls, mainThreadTls, codeBytesMapped := null, 0, 0;
      heapSize, borrows := 0, [];
      boot, p0 := map[], 0;
    }
  }
}
