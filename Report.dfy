/** Assembling the QC record: the scanned server facts, the technician's manual
    corrections, the 'Unknown' defaults, the QC entries, and the merge of the two
    dictionaries `main` hands to the spreadsheet writer. */
module Report {
  import opened Wrappers
  import opened Text
  import opened Qc
  import Dmi
  import Pcie

  /** The values the record dictionaries hold: a string, Python's `None` (only
      `ram_type` can be `None`), or the list of PCIe device strings. */
  datatype Value = Str(text: string) | NoneValue | List(items: seq<string>)

  /** A Python dictionary from field name to value. */
  type Row = map<string, Value>

  const ModelKey := "model"
  const ProductNumberKey := "product_number"
  const SerialNumberKey := "serial_number"
  const ProcessorKey := "processor"
  const RamTypeKey := "ram_type"
  const InstalledRamKey := "installed_ram"
  const PcieDevicesKey := "pcie_devices"
  const CosmeticGradeKey := "cosmetic_grade"
  const FunctionalGradeKey := "functional_grade"
  const QcedByKey := "qced_by"
  const TestDateKey := "test_date"

  const ServerKeys: set<string> :=
    {ModelKey, ProductNumberKey, SerialNumberKey, ProcessorKey, RamTypeKey, InstalledRamKey, PcieDevicesKey}
  const UserKeys: set<string> := {CosmeticGradeKey, FunctionalGradeKey, QcedByKey, TestDateKey}

  /** What `get_server_info` has in hand before the confirmation dialogue: the
      fields read from dmidecode are `None` when no line matched. */
  datatype ServerScan = ServerScan(
    model: Option<string>,
    productNumber: Option<string>,
    serial: Option<string>,
    processor: string,
    ramType: Option<string>,
    installedRam: string,
    pcieDevices: seq<string>)

  /** The technician's answers when they choose to enter the information by hand:
      an empty answer keeps the scanned value; `pcieDevices` is `None` when they
      decline to edit the device list, and the list they typed otherwise. */
  datatype Manual = Manual(
    model: string,
    productNumber: string,
    serial: string,
    processor: string,
    ramType: string,
    installedRam: string,
    pcieDevices: Option<seq<string>>)

  /** Python's `entry or current` for an optional current value. */
  function OrElse(entry: string, current: Option<string>): Option<string> {
    if entry != "" then Some(entry) else current
  }

  /** Python's `entry or current` for a current string. */
  function OrString(entry: string, current: string): string {
    if entry != "" then entry else current
  }

  /** The manual overrides of `get_server_info` (ServerSpecstoCSV.py:149-159): with
      no manual entry nothing changes; otherwise each answer replaces its field
      exactly when it is non-empty, and an edited device list replaces the scanned
      one outright. */
  function ApplyManual(scan: ServerScan, manual: Option<Manual>): (r: ServerScan)
    ensures manual.None? ==> r == scan
    ensures manual.Some? ==>
      var m := manual.value;
      (r.model == if m.model == "" then scan.model else Some(m.model)) &&
      (r.productNumber == if m.productNumber == "" then scan.productNumber else Some(m.productNumber)) &&
      (r.serial == if m.serial == "" then scan.serial else Some(m.serial)) &&
      (r.processor == if m.processor == "" then scan.processor else m.processor) &&
      (r.ramType == if m.ramType == "" then scan.ramType else Some(m.ramType)) &&
      (r.installedRam == if m.installedRam == "" then scan.installedRam else m.installedRam) &&
      (r.pcieDevices == if m.pcieDevices.None? then scan.pcieDevices else m.pcieDevices.value)
  {
    match manual
    case None => scan
    case Some(m) =>
      ServerScan(
        OrElse(m.model, scan.model),
        OrElse(m.productNumber, scan.productNumber),
        OrElse(m.serial, scan.serial),
        OrString(m.processor, scan.processor),
        OrElse(m.ramType, scan.ramType),
        OrString(m.installedRam, scan.installedRam),
        m.pcieDevices.GetOr(scan.pcieDevices))
  }

  /** A manual entry of nothing but empty answers, without a device edit, changes
      nothing. */
  lemma BlankManualKeeps(scan: ServerScan)
    ensures ApplyManual(scan, Some(Manual("", "", "", "", "", "", None))) == scan
  {
  }

  /** Entering the same answers a second time changes nothing more. */
  lemma ApplyManualIdempotent(scan: ServerScan, manual: Option<Manual>)
    ensures ApplyManual(ApplyManual(scan, manual), manual) == ApplyManual(scan, manual)
  {
  }

  /** Python's `value or 'Unknown'`. */
  function OrUnknown(v: Option<string>): (r: string)
    ensures r != ""
    ensures v.Some? && v.value != "" ==> r == v.value
    ensures v.None? || v.value == "" ==> r == Dmi.Unknown
  {
    if v.Some? && v.value != "" then v.value else Dmi.Unknown
  }

  /** The dictionary `get_server_info` returns (ServerSpecstoCSV.py:163-171). */
  function ServerRecord(scan: ServerScan): (row: Row)
    ensures row.Keys == ServerKeys
    ensures forall k :: k in {ModelKey, ProductNumberKey, SerialNumberKey} ==> row[k].Str? && row[k].text != ""
    ensures row[ModelKey] == Str(OrUnknown(scan.model))
    ensures row[ProductNumberKey] == Str(OrUnknown(scan.productNumber))
    ensures row[SerialNumberKey] == Str(OrUnknown(scan.serial))
    ensures row[ProcessorKey] == Str(scan.processor)
    ensures row[RamTypeKey] == (if scan.ramType.None? then NoneValue else Str(scan.ramType.value))
    ensures row[InstalledRamKey] == Str(scan.installedRam)
    ensures row[PcieDevicesKey] == List(scan.pcieDevices)
  {
    map[
      ModelKey := Str(OrUnknown(scan.model)),
      ProductNumberKey := Str(OrUnknown(scan.productNumber)),
      SerialNumberKey := Str(OrUnknown(scan.serial)),
      ProcessorKey := Str(scan.processor),
      RamTypeKey := if scan.ramType.None? then NoneValue else Str(scan.ramType.value),
      InstalledRamKey := Str(scan.installedRam),
      PcieDevicesKey := List(scan.pcieDevices)]
  }

  /** For the model, the P/N and the serial number, a non-empty answer typed by hand
      is what the record holds; with an empty answer the record holds the scanned
      value, or 'Unknown' when that is missing or empty. */
  lemma ManualEntryWins(scan: ServerScan, m: Manual)
    ensures var row := ServerRecord(ApplyManual(scan, Some(m)));
      (row[ModelKey] == Str(if m.model != "" then m.model else OrUnknown(scan.model))) &&
      (row[ProductNumberKey] == Str(if m.productNumber != "" then m.productNumber else OrUnknown(scan.productNumber))) &&
      (row[SerialNumberKey] == Str(if m.serial != "" then m.serial else OrUnknown(scan.serial)))
  {
  }

  /** One attempt at the QC questions of `get_user_input` (ServerSpecstoCSV.py:196-232):
      the grades are upper-cased and validated, the date checked and formatted, and
      the technician's name taken as typed; `None` where the prompt would be
      repeated. */
  function UserData(cosmetic: string, functional: string, qcedBy: string, testDate: string): (r: Option<Row>)
    ensures r.Some? <==>
      ValidateGrade(Upper(cosmetic), Cosmetic) && ValidateGrade(Upper(functional), Functional) &&
      |testDate| == 6 && IsDigitString(testDate)
    ensures r.Some? ==> r.value.Keys == UserKeys
    ensures r.Some? ==> r.value[TestDateKey].Str? && Remove(r.value[TestDateKey].text, '/') == testDate
    ensures r.Some? ==> r.value[CosmeticGradeKey] == Str(Upper(cosmetic)) && r.value[QcedByKey] == Str(qcedBy)
    ensures r.Some? ==> r.value[FunctionalGradeKey] == Str(Upper(functional))
    ensures r.Some? ==> r.value[TestDateKey] == Str(FormatDate(testDate).value)
  {
    var date := FormatDate(testDate);
    if !ValidateGrade(Upper(cosmetic), Cosmetic) || !ValidateGrade(Upper(functional), Functional) || date.None? then
      None
    else
      FormatDateUnslash(testDate);
      Some(map[
        CosmeticGradeKey := Str(Upper(cosmetic)),
        FunctionalGradeKey := Str(Upper(functional)),
        QcedByKey := Str(qcedBy),
        TestDateKey := Str(date.value)])
  }

  /** Python's `{**a, **b}`: every key of either, with `b`'s value where both have one. */
  function Merge(a: Row, b: Row): (m: Row)
    ensures m.Keys == a.Keys + b.Keys
    ensures forall k :: k in b ==> m[k] == b[k]
    ensures forall k :: k in a && k !in b ==> m[k] == a[k]
  {
    a + b
  }

  /** With disjoint keys the merge loses nothing and its order does not matter. */
  lemma MergeDisjoint(a: Row, b: Row)
    requires a.Keys !! b.Keys
    ensures Merge(a, b) == Merge(b, a)
    ensures forall k :: k in a ==> Merge(a, b)[k] == a[k]
  {
  }

  /** The record `main` builds (ServerSpecstoCSV.py:291-299): nothing when gathering
      the server information failed, and otherwise the server record and the QC
      entries side by side, eleven fields in all. */
  function AllData(serverInfo: Option<Row>, userData: Row): (r: Option<Row>)
    requires serverInfo.Some? ==> serverInfo.value.Keys == ServerKeys
    requires userData.Keys == UserKeys
    ensures r.None? <==> serverInfo.None?
    ensures r.Some? ==> |r.value.Keys| == 11 && r.value.Keys == ServerKeys + UserKeys
    ensures r.Some? ==> forall k :: k in serverInfo.value ==> r.value[k] == serverInfo.value[k]
    ensures r.Some? ==> forall k :: k in userData ==> r.value[k] == userData[k]
  {
    if serverInfo.None? then None
    else
      KeyCount();
      MergeDisjoint(serverInfo.value, userData);
      Some(Merge(serverInfo.value, userData))
  }

  /** The server record and the QC entries share no field name: seven and four
      fields make eleven. */
  lemma KeyCount()
    ensures ServerKeys !! UserKeys && |ServerKeys + UserKeys| == 11
  {
    assert |ServerKeys| == 7;
    assert |UserKeys| == 4;
  }

  /** What the scans of `get_server_info` find in the outputs of the commands it
      runs, before any manual correction: when `free -g` gives no total, both memory
      fields are 'Unknown' whatever `dmidecode -t 17` says. */
  function Scanned(systemText: string, boardText: string, cpuText: string, freeText: string,
                   memoryText: string, pcieText: string): (r: ServerScan)
    ensures Dmi.InstalledRam(freeText).None? ==> r.ramType == Some(Dmi.Unknown) && r.installedRam == Dmi.Unknown
    ensures Dmi.InstalledRam(freeText).Some? ==>
      r.ramType == Dmi.RamTypeOf(Lines(memoryText)) && r.installedRam == Dmi.InstalledRam(freeText).value
  {
    var total := Dmi.InstalledRam(freeText);
    ServerScan(
      Dmi.SystemModel(Lines(systemText)),
      Dmi.BoardProductNumber(Lines(boardText)),
      Dmi.SystemSerial(Lines(systemText)),
      Dmi.CpuInfo(Lines(cpuText)),
      if total.None? then Some(Dmi.Unknown) else Dmi.RamTypeOf(Lines(memoryText)),
      if total.None? then Dmi.Unknown else total.value,
      Pcie.DeviceStrings(Lines(pcieText)))
  }

  /** `get_server_info` (ServerSpecstoCSV.py:94-175) on the outputs of `dmidecode -t
      system`, `dmidecode -t baseboard`, `dmidecode -t processor`, `free -g`,
      `dmidecode -t 17` and `lspci -vmm`, and the manual entry if there is one. */
  method GetServerInfo(systemText: string, boardText: string, cpuText: string, freeText: string,
                       memoryText: string, pcieText: string, manual: Option<Manual>) returns (row: Row)
    ensures row == ServerRecord(ApplyManual(Scanned(systemText, boardText, cpuText, freeText, memoryText, pcieText), manual))
  {
    var manufacturer, model, serial := Dmi.ScanSystem(Lines(systemText));
    var productNumber := Dmi.ScanBoard(Lines(boardText));
    var cpuInfo := Dmi.CpuInfo(Lines(cpuText));
    var ramType, installedRam := Dmi.GetRamInfo(freeText, memoryText);
    var pcieDevices := Pcie.GetPcieDevices(pcieText);
    var scan := ServerScan(model, productNumber, serial, cpuInfo, ramType, installedRam, pcieDevices);
    row := ServerRecord(ApplyManual(scan, manual));
  }
}
