/** The configuration of a device (src/modbus_client/device/device_config.py): its holding
    and input registers, its switches, how it numbers addresses and how it is read, and
    the lookups of a register or a switch by name. */
module DeviceConfigs {
  import opened Wrappers
  import opened Exceptions
  import opened Transport
  import opened DeviceRegisters

  /** `SwitchRegisterTypeEnum`: `coil` is its only member. */
  datatype SwitchType = CoilSwitch

  /** `DeviceSwitch`: a coil of the device, by its number in the device's numbering. */
  datatype DeviceSwitch = DeviceSwitch(name: string, switchType: SwitchType, number: int)

  /** `DeviceSwitch(name=..., type=..., number=...)`: the type must be the text `coil`,
      anything else fails validation. */
  function NewDeviceSwitch(name: string, typeText: string, number: int): (r: Result<DeviceSwitch, Exception>)
    ensures r.Ok? <==> typeText == "coil"
    ensures r.Ok? ==> r.value.name == name && r.value.number == number
    ensures r.Err? ==> r.error == ValidationError
  {
    if typeText == "coil" then Ok(DeviceSwitch(name, CoilSwitch, number)) else Err(ValidationError)
  }

  /** `DeviceRegisters`: the two lists of a device file, empty by default. */
  datatype RegisterLists = RegisterLists(inputRegisters: seq<DeviceRegister> := [],
                                         holdingRegisters: seq<DeviceRegister> := [])
  {
    /** Each list holds registers of its own class, as pydantic validates them. */
    predicate WellFormed() {
      && (forall i :: 0 <= i < |inputRegisters| ==> inputRegisters[i].kind == Input)
      && (forall i :: 0 <= i < |holdingRegisters| ==> holdingRegisters[i].kind == Holding)
    }
  }

  function RegisterName(reg: DeviceRegister): string {
    reg.name
  }

  function SwitchName(sw: DeviceSwitch): string {
    sw.name
  }

  /** The position of the first element called `name`, or `|xs|` when none is: the loop
      that returns the first match. */
  function FirstNamed<T>(xs: seq<T>, nameOf: T -> string, name: string): (i: nat)
    ensures i <= |xs|
    ensures i < |xs| ==> nameOf(xs[i]) == name
    ensures forall j :: 0 <= j < i ==> nameOf(xs[j]) != name
    decreases |xs|
  {
    if xs == [] then 0
    else if nameOf(xs[0]) == name then 0
    else 1 + FirstNamed(xs[1..], nameOf, name)
  }

  /** The contract of `FirstNamed` singles out one position. */
  lemma FirstNamedUnique<T>(xs: seq<T>, nameOf: T -> string, name: string, k: nat)
    requires k <= |xs|
    requires k < |xs| ==> nameOf(xs[k]) == name
    requires forall j :: 0 <= j < k ==> nameOf(xs[j]) != name
    ensures FirstNamed(xs, nameOf, name) == k
  {
  }

  /** `DeviceConfig`, with the defaults of its optional fields. */
  datatype DeviceConfig = DeviceConfig(
    zeroMode: bool,
    registers: RegisterLists,
    switches: seq<DeviceSwitch> := [],
    forceMultipleWrite: bool := false,
    allowHoles: bool := false,
    maxReadSize: int := DefaultMaxReadSize)
  {
    /** `get_all_registers`: the holding registers, then the input registers. */
    function AllRegisters(): seq<DeviceRegister>
    {
      registers.holdingRegisters + registers.inputRegisters
    }

    /** `find_register`: the first register called `name`, or nothing. */
    function FindRegister(name: string): (r: Option<DeviceRegister>)
      ensures r.Some? ==> r.value.name == name && r.value in AllRegisters()
      ensures r.None? <==> forall x :: x in AllRegisters() ==> x.name != name
    {
      var all := AllRegisters();
      var i := FirstNamed(all, RegisterName, name);
      if i < |all| then Some(all[i]) else None
    }

    /** `find_switch`: the first switch called `name`, or nothing. */
    function FindSwitch(name: string): (r: Option<DeviceSwitch>)
      ensures r.Some? ==> r.value.name == name && r.value in switches
      ensures r.None? <==> forall x :: x in switches ==> x.name != name
    {
      var i := FirstNamed(switches, SwitchName, name);
      if i < |switches| then Some(switches[i]) else None
    }
  }

  /** Only the zero mode and the registers are required. */
  lemma Defaults(zeroMode: bool)
    ensures var c := DeviceConfig(zeroMode, RegisterLists());
      && c.registers.inputRegisters == [] && c.registers.holdingRegisters == []
      && c.switches == [] && !c.forceMultipleWrite && !c.allowHoles && c.maxReadSize == 100
  {
  }

  /** `find_register` answers with the first register of `get_all_registers` that has the
      name. */
  lemma FindRegisterFirst(config: DeviceConfig, name: string, k: nat)
    requires k < |config.AllRegisters()| && config.AllRegisters()[k].name == name
    requires forall j :: 0 <= j < k ==> config.AllRegisters()[j].name != name
    ensures config.FindRegister(name) == Some(config.AllRegisters()[k])
  {
    FirstNamedUnique(config.AllRegisters(), RegisterName, name, k);
  }

  /** A holding register shadows every input register of the same name. */
  lemma HoldingShadowsInput(config: DeviceConfig, name: string, i: nat)
    requires i < |config.registers.holdingRegisters| && config.registers.holdingRegisters[i].name == name
    ensures config.FindRegister(name).Some?
    ensures config.FindRegister(name).value in config.registers.holdingRegisters
  {
    var all := config.AllRegisters();
    var k := FirstNamed(all, RegisterName, name);
    assert all[i].name == name;
    assert k <= i;
  }

  /** In a well-formed configuration the register found is a holding or an input
      register, never of the base class. */
  lemma FoundHasTable(config: DeviceConfig, name: string)
    requires config.registers.WellFormed() && config.FindRegister(name).Some?
    ensures config.FindRegister(name).value.kind != Base
  {
    var all := config.AllRegisters();
    var k := FirstNamed(all, RegisterName, name);
    assert config.FindRegister(name) == if k < |all| then Some(all[k]) else None;
    var h := config.registers.holdingRegisters;
    var input := config.registers.inputRegisters;
    if k < |h| {
      assert all[k] == h[k] && h[k].kind == Holding;
    } else {
      assert all[k] == input[k - |h|] && input[k - |h|].kind == Input;
    }
  }

  /** `find_switch` answers with the first switch that has the name. */
  lemma FindSwitchFirst(config: DeviceConfig, name: string, k: nat)
    requires k < |config.switches| && config.switches[k].name == name
    requires forall j :: 0 <= j < k ==> config.switches[j].name != name
    ensures config.FindSwitch(name) == Some(config.switches[k])
  {
    FirstNamedUnique(config.switches, SwitchName, name, k);
  }
}
