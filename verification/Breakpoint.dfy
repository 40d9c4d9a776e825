/** The operations of src/breakpoint.c on one entry. */
module BreakpointOps {
  import opened Common
  import opened Machine
  import opened Overlay

  method BpEnable(p: Tracee, bp: Breakpoint, addr: Addr) returns (ok: bool, bp': Breakpoint)
    requires p.Sound()
    modifies p`text, p`faults
    ensures p.Sound() && p.faults >= old(p.faults)
    ensures ok ==> addr in old(p.text) && bp' == Breakpoint(addr, old(p.text)[addr], true)
                   && p.text == old(p.text)[addr := TRAP] && p.faults == old(p.faults) && p.life == Live
    ensures !ok ==> p.text == old(p.text) && (bp' == bp || (bp'.addr == addr && !bp'.enabled))
    ensures !ok && p.life == Live && addr in p.text ==> p.faults > old(p.faults)
  {
    bp' := bp;
    var inst;
    ok, inst := p.ReadWord(addr);
    if !ok { return; }

    bp' := Breakpoint(addr, inst, true);
    ok := p.WriteWord(addr, TRAP);
    if !ok { bp' := bp'.(enabled := false); }
  }

  method BpDisable(p: Tracee, bp: Breakpoint) returns (ok: bool, bp': Breakpoint)
    requires p.Sound() && (bp.enabled ==> SavedWordSound(p.program, bp))
    modifies p`text, p`faults
    ensures p.Sound() && p.faults >= old(p.faults)
    ensures !bp.enabled ==> ok && bp' == bp && p.text == old(p.text) && p.faults == old(p.faults)
    ensures bp.enabled && ok ==> bp' == bp.(enabled := false) && p.text == old(p.text)[bp.addr := bp.saved]
                                 && p.faults == old(p.faults) && p.life == Live
    ensures !ok ==> bp' == bp && p.text == old(p.text)
    ensures !ok && p.life == Live ==> p.faults > old(p.faults)
  {
    bp' := bp;
    if !bp.enabled { return true, bp; }
    ok := p.WriteWord(bp.addr, bp.saved);
    if ok { bp' := bp.(enabled := false); }
  }
}
