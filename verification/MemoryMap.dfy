/** The memory map the server computes from the memory size, against what both
    links require of it. */
module MemoryMap {
  import opened Words
  import opened Circular
  import DebugIp
  import opened H2tLink
  import opened H2tSafety
  import opened Sockets
  import T2hLink

  const JOP_MEM_SIZE_2K: nat := 2048
  const H2T_MEM_BASE_2K: nat := 0x800
  const T2H_MEM_BASE_4K: nat := 0x1000

  /** The highest of the H2T and T2H registers. */
  const T2H_DESCRIPTORS_DONE: nat := 0x218

  /** `init_driver` reads this one as well, whether or not there is MGMT. */
  const MGMT_AVAILABLE_SLOTS: nat := 0x1100

  datatype DesignInfo = DesignInfo(h2tBase: nat, h2tSize: nat, t2hBase: nat, t2hSize: nat)

  /** `get_design_info`, without MGMT */
  function GetDesignInfo(size: nat): DesignInfo {
    if size > JOP_MEM_SIZE_2K then DesignInfo(size, size, 2 * size, size)
    else DesignInfo(H2T_MEM_BASE_2K, size, T2H_MEM_BASE_4K, size)
  }

  /** Both memories are usable in a window that ends with the T2H memory. */
  predicate Usable(m: DesignInfo, depth: nat) {
    var window := m.t2hBase + m.t2hSize;
    && DebugIp.Config(m.h2tBase, m.h2tSize, depth, window).Valid()
    && T2hLink.Config(m.t2hBase, m.t2hSize, window).Valid()
  }

  predicate InH2t(m: DesignInfo, a: nat) { m.h2tBase <= a < m.h2tBase + m.h2tSize }

  predicate InT2h(m: DesignInfo, a: nat) { m.t2hBase <= a < m.t2hBase + m.t2hSize }

  /** Both memories have the requested size, the H2T memory comes first, and no
      other address belongs to a memory. */
  lemma MapSizes(size: nat, a: nat)
    ensures var m := GetDesignInfo(size);
            && m.h2tSize == m.t2hSize == size && m.h2tBase + size <= m.t2hBase
            && (InH2t(m, a) <==> if size > 2048 then size <= a < 2 * size else 0x800 <= a < 0x800 + size)
            && (InT2h(m, a) <==> if size > 2048 then 2 * size <= a < 3 * size else 0x1000 <= a < 0x1000 + size)
  {
  }

  /** The map is usable exactly for positive multiples of 8 whose map ends within
      the positive 32-bit addresses. */
  lemma MapDecides(size: nat, depth: nat)
    requires depth <= 128
    ensures Usable(GetDesignInfo(size), depth) <==> 0 < size && IsWords(size) && 3 * size <= B31
  {
    if IsWords(size) { AddWords(size, size); }
  }

  /** The memories and the H2T and T2H registers do not overlap. */
  lemma MapDisjoint(size: nat, a: nat)
    ensures var m := GetDesignInfo(size);
            && !(InH2t(m, a) && InT2h(m, a))
            && (a < T2H_DESCRIPTORS_DONE + 4 ==> a < m.h2tBase && a < m.t2hBase)
  {
  }

  /** The MGMT slot counter is another matter: it lies inside one of the memories
      exactly for sizes from 257 to 4352. */
  lemma MgmtRegisterDecides(size: nat)
    ensures var m := GetDesignInfo(size);
            InH2t(m, MGMT_AVAILABLE_SLOTS) || InT2h(m, MGMT_AVAILABLE_SLOTS) <==> 256 < size <= 4352
  {
  }

  /** The staging buffers of loopback always fit between the H2T memory base and
      the end of the window. */
  lemma MapHasLoopbackRoom(size: nat)
    ensures var m := GetDesignInfo(size);
            m.h2tBase + m.h2tSize + PACKET_HEADER_SIZE <= m.t2hBase + m.t2hSize
  {
  }

  /** Whatever the client sends and whatever is lost, no store of the H2T path
      changes a byte of T2H memory or of the register space. */
  lemma H2tStaysInItsMemory(s: State, run: seq<Step>, size: nat, a: nat)
    requires s.Ok() && a < s.c.window
    requires s.c.base == GetDesignInfo(size).h2tBase && s.c.span == GetDesignInfo(size).h2tSize
    requires var m := GetDesignInfo(size);
             InT2h(m, a) || a < T2H_DESCRIPTORS_DONE + 4
    ensures Exec(s, run).hw.mem[a] == s.hw.mem[a]
  {
    MapDisjoint(size, a);
    OutsideUntouched(s, run, a);
  }
}
