/** What the threads share: the disk, and the lists kept in `Main` of the names the
    watchers have detected and the names the movers have moved. */
module Shared {
  import opened FileSystem

  /** The disk every thread reads and writes. */
  class Disk {
    var root: Node

    constructor(root: Node)
      ensures this.root == root
    {
      this.root := root;
    }
  }

  class Registry {
    /** `Main.detected` (`Main.DETECTED` in the later version). */
    var detected: seq<string>
    /** `Main.MOVED`. */
    var moved: seq<string>

    constructor()
      ensures detected == [] && moved == []
    {
      detected := [];
      moved := [];
    }
  }
}
