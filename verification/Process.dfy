/** The state of a crashed process on its way to a core file (src/model.rs). */
module Process {
  import opened Bytes
  import opened Model
  import opened Mappings
  import opened LinkMap

  /** A CPU context, known only by the register payloads that are serialised from it; `prReg`
      is an error when the context does not belong to the architecture. */
  datatype Context = Context(prReg: Result<seq<byte>>, fpRegs: Option<seq<byte>>, xfpRegs: Option<seq<byte>>)

  datatype ThreadSnapshot = ThreadSnapshot(
    tid: u32,
    stackAddress: u64,
    stack: seq<byte>,
    context: Option<Context>)

  /** A signed 32-bit integer. */
  type i32 = x: int | -0x8000_0000 <= x < 0x8000_0000

  class CrashedProcess {
    const architecture: Architecture
    const mappings: MappingTable
    var threads: seq<ThreadSnapshot>
    var auxv: seq<byte>
    var prpsinfo: seq<byte>
    var crashingTid: Option<u32>
    var exceptionContext: Option<Context>
    var fatalSignal: i32
    var dsoDebug: DsoDebug
    var signatures: Signatures

    constructor (architecture: Architecture, prpsinfo: seq<byte>)
      ensures this.architecture == architecture && this.prpsinfo == prpsinfo
      ensures fresh(mappings) && mappings.entries == map[]
      ensures threads == [] && auxv == [] && crashingTid.None? && exceptionContext.None?
      ensures fatalSignal == 0 && signatures == map[] && dsoDebug == DsoDebug(0, 0, 0, 0, [], [])
    {
      this.architecture := architecture;
      this.prpsinfo := prpsinfo;
      mappings := new MappingTable(map[]);
      threads, auxv := [], [];
      crashingTid, exceptionContext := None, None;
      fatalSignal, signatures := 0, map[];
      dsoDebug := DsoDebug(0, 0, 0, 0, [], []);
    }
  }
}
