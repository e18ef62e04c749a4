/** The scrapers for what `dmidecode` and `free -g` print: the processor version
    (first match wins), the system and baseboard fields (last match wins), the
    memory type of the first populated module, and the installed memory in GB.
    Each takes the command's output as text or as its lines. */
module Dmi {
  import opened Wrappers
  import opened Text

  const VersionKey := "Version:"
  const ManufacturerKey := "Manufacturer:"
  const ProductKey := "Product Name:"
  const SerialKey := "Serial Number:"
  const MemoryDeviceKey := "Memory Device"
  const TypeKey := "Type:"
  const UnknownCpu := "Unknown CPU"
  const Unknown := "Unknown"

  /** `line.split(':')[1].strip()` for a line that contains `key`: the key holds a
      colon, so the split always has a second piece. */
  function KeyValue(line: string, key: string): (v: string)
    requires ':' in key && Contains(line, key)
    ensures ':' !in v
    ensures v != [] ==> !IsSpace(v[0]) && !IsSpace(v[|v| - 1])
  {
    ContainsChar(line, key, ':');
    SplitPieces(line, ':', 0);
    StripWithin(Split(line, ':')[1], ':');
    Strip(Split(line, ':')[1])
  }

  /** The value of a key line is the stripped text between its first colon (at `i`)
      and its second colon (at `j`), or the end of the line when there is no second
      one: a value holding a colon is cut short there. */
  lemma KeyValueBetweenColons(line: string, key: string, i: nat, j: nat)
    requires ':' in key && Contains(line, key)
    requires i < j <= |line| && line[i] == ':' && (j < |line| ==> line[j] == ':')
    requires forall t :: 0 <= t < j && t != i ==> line[t] != ':'
    ensures KeyValue(line, key) == Strip(line[i + 1..j])
  {
    SplitSecond(line, ':', i, j);
  }

  // ----- processor: first match wins ----------------------------------------

  /** The processor version from `dmidecode -t processor`: "Unknown CPU", or the
      value of a line holding "Version:". */
  function CpuInfo(lines: seq<string>): (r: string)
    ensures r == UnknownCpu ||
      exists i :: 0 <= i < |lines| && Contains(lines[i], VersionKey) && r == KeyValue(lines[i], VersionKey)
  {
    if lines == [] then UnknownCpu
    else if Contains(lines[0], VersionKey) then KeyValue(lines[0], VersionKey)
    else CpuInfo(lines[1..])
  }

  /** The first line holding "Version:" decides the processor, whatever follows. */
  lemma {:induction false} CpuInfoFirstMatch(lines: seq<string>, i: nat)
    requires i < |lines| && Contains(lines[i], VersionKey)
    requires forall j :: 0 <= j < i ==> !Contains(lines[j], VersionKey)
    ensures CpuInfo(lines) == KeyValue(lines[i], VersionKey)
  {
    if i > 0 {
      CpuInfoFirstMatch(lines[1..], i - 1);
    }
  }

  /** Without a "Version:" line the processor is "Unknown CPU". */
  lemma {:induction false} CpuInfoNoMatch(lines: seq<string>)
    requires forall j :: 0 <= j < |lines| ==> !Contains(lines[j], VersionKey)
    ensures CpuInfo(lines) == UnknownCpu
  {
    if lines != [] {
      CpuInfoNoMatch(lines[1..]);
    }
  }

  // ----- system and baseboard: last match wins --------------------------------

  /** A line sets the field of `key` when it contains `key` and none of the keys
      tested before it in the same `if`/`elif` chain. */
  predicate Selects(line: string, key: string, earlier: seq<string>) {
    Contains(line, key) && forall e :: e in earlier ==> !Contains(line, e)
  }

  /** The value of the last line that selects the field, or `None` when no line does. */
  function LastWith(lines: seq<string>, key: string, earlier: seq<string>): (r: Option<string>)
    requires ':' in key
    ensures r.None? <==> forall j :: 0 <= j < |lines| ==> !Selects(lines[j], key, earlier)
    decreases |lines|
  {
    if lines == [] then None
    else
      var last := lines[|lines| - 1];
      if Selects(last, key, earlier) then Some(KeyValue(last, key))
      else LastWith(lines[..|lines| - 1], key, earlier)
  }

  /** The last selecting line decides the field, whatever came before it. */
  lemma {:induction false} LastWithIndex(lines: seq<string>, key: string, earlier: seq<string>, i: nat)
    requires ':' in key
    requires i < |lines| && Selects(lines[i], key, earlier)
    requires forall j :: i < j < |lines| ==> !Selects(lines[j], key, earlier)
    ensures LastWith(lines, key, earlier) == Some(KeyValue(lines[i], key))
    decreases |lines|
  {
    if i < |lines| - 1 {
      var init := lines[..|lines| - 1];
      assert forall j :: i < j < |init| ==> init[j] == lines[j];
      LastWithIndex(init, key, earlier, i);
    }
  }

  /** The fields of `dmidecode -t system`, in the order the `elif` chain tests them. */
  function SystemManufacturer(lines: seq<string>): Option<string> {
    LastWith(lines, ManufacturerKey, [])
  }

  function SystemModel(lines: seq<string>): Option<string> {
    LastWith(lines, ProductKey, [ManufacturerKey])
  }

  function SystemSerial(lines: seq<string>): Option<string> {
    LastWith(lines, SerialKey, [ManufacturerKey, ProductKey])
  }

  /** The P/N from `dmidecode -t baseboard`: its last "Product Name:" line. */
  function BoardProductNumber(lines: seq<string>): Option<string> {
    LastWith(lines, ProductKey, [])
  }

  /** Because of the `elif` order, a line holding "Manufacturer:" sets only the
      manufacturer, and a line holding "Product Name:" never sets the serial. */
  lemma ElifOrder(lines: seq<string>, line: string)
    ensures Contains(line, ManufacturerKey) ==>
      && SystemManufacturer(lines + [line]) == Some(KeyValue(line, ManufacturerKey))
      && SystemModel(lines + [line]) == SystemModel(lines)
      && SystemSerial(lines + [line]) == SystemSerial(lines)
    ensures Contains(line, ProductKey) ==>
      SystemSerial(lines + [line]) == SystemSerial(lines)
  {
    assert (lines + [line])[..|lines|] == lines;
  }

  /** The loop over `dmidecode -t system` (ServerSpecstoCSV.py:115-121): each
      matching line reassigns its field, so the last match wins. */
  method ScanSystem(lines: seq<string>) returns (manufacturer: Option<string>, model: Option<string>, serial: Option<string>)
    ensures manufacturer == SystemManufacturer(lines)
    ensures model == SystemModel(lines)
    ensures serial == SystemSerial(lines)
  {
    manufacturer, model, serial := None, None, None;
    for i := 0 to |lines|
      invariant manufacturer == SystemManufacturer(lines[..i])
      invariant model == SystemModel(lines[..i])
      invariant serial == SystemSerial(lines[..i])
    {
      var line := lines[i];
      assert lines[..i + 1][..i] == lines[..i] && lines[..i + 1][i] == line;
      if Contains(line, ManufacturerKey) {
        manufacturer := Some(KeyValue(line, ManufacturerKey));
      } else if Contains(line, ProductKey) {
        model := Some(KeyValue(line, ProductKey));
      } else if Contains(line, SerialKey) {
        serial := Some(KeyValue(line, SerialKey));
      }
    }
    assert lines[..|lines|] == lines;
  }

  /** The loop over `dmidecode -t baseboard` (ServerSpecstoCSV.py:124-126). */
  method ScanBoard(lines: seq<string>) returns (productNumber: Option<string>)
    ensures productNumber == BoardProductNumber(lines)
  {
    productNumber := None;
    for i := 0 to |lines|
      invariant productNumber == BoardProductNumber(lines[..i])
    {
      var line := lines[i];
      assert lines[..i + 1][..i] == lines[..i] && lines[..i + 1][i] == line;
      if Contains(line, ProductKey) {
        productNumber := Some(KeyValue(line, ProductKey));
      }
    }
    assert lines[..|lines|] == lines;
  }

  // ----- memory type: first non-empty value after the first device header -----

  predicate IsDeviceHeader(line: string) {
    Contains(line, MemoryDeviceKey)
  }

  /** The index of the first "Memory Device" header, or `|lines|` when there is none. */
  function FirstHeader(lines: seq<string>): (k: nat)
    ensures k <= |lines|
    ensures k < |lines| ==> IsDeviceHeader(lines[k])
    ensures forall i :: 0 <= i < k ==> !IsDeviceHeader(lines[i])
  {
    FirstHeaderFrom(lines, 0)
  }

  /** The index of the first header at or after `i`. */
  function FirstHeaderFrom(lines: seq<string>, i: nat): (k: nat)
    requires i <= |lines|
    ensures i <= k <= |lines|
    ensures k < |lines| ==> IsDeviceHeader(lines[k])
    ensures forall j :: i <= j < k ==> !IsDeviceHeader(lines[j])
    decreases |lines| - i
  {
    if i == |lines| then i
    else if IsDeviceHeader(lines[i]) then i
    else FirstHeaderFrom(lines, i + 1)
  }

  lemma FirstHeaderUnique(lines: seq<string>, k: nat)
    requires k <= |lines| && (k < |lines| ==> IsDeviceHeader(lines[k]))
    requires forall i :: 0 <= i < k ==> !IsDeviceHeader(lines[i])
    ensures FirstHeader(lines) == k
  {
  }

  /** A header of `prefix` is still the first one once a line is appended; without
      one, the new line is the first header or there is none. */
  lemma FirstHeaderSnoc(prefix: seq<string>, line: string)
    ensures FirstHeader(prefix + [line]) ==
      if FirstHeader(prefix) < |prefix| || IsDeviceHeader(line) then FirstHeader(prefix) else |prefix| + 1
  {
    var lines := prefix + [line];
    assert forall i :: 0 <= i < |prefix| ==> lines[i] == prefix[i];
    FirstHeaderUnique(lines, if FirstHeader(prefix) < |prefix| || IsDeviceHeader(line) then FirstHeader(prefix) else |prefix| + 1);
  }

  /** A line the memory loop reads a type from: it holds "Type:" and is not itself
      a "Memory Device" header (that branch is tested first). */
  predicate IsTypeLine(line: string) {
    Contains(line, TypeKey) && !IsDeviceHeader(line)
  }

  /** The type value a line contributes: one for a type line, none otherwise. */
  function TypeValue(line: string): seq<string> {
    if IsTypeLine(line) then [KeyValue(line, TypeKey)] else []
  }

  /** The type values of the type lines, in order. */
  function TypeValues(lines: seq<string>): seq<string> {
    if lines == [] then [] else TypeValue(lines[0]) + TypeValues(lines[1..])
  }

  /** The first non-empty string of `vs`, if any. */
  function FirstNonEmpty(vs: seq<string>): (r: Option<string>)
    ensures r.Some? ==> r.value != ""
  {
    if vs == [] then None
    else if vs[0] != "" then Some(vs[0])
    else FirstNonEmpty(vs[1..])
  }

  /** `FirstNonEmpty` finds nothing exactly when every value is empty. */
  lemma {:induction false} FirstNonEmptyNone(vs: seq<string>)
    ensures FirstNonEmpty(vs).None? <==> forall i :: 0 <= i < |vs| ==> vs[i] == ""
  {
    if vs != [] {
      FirstNonEmptyNone(vs[1..]);
      assert forall i :: 1 <= i < |vs| ==> vs[i] == vs[1..][i - 1];
    }
  }

  /** What `FirstNonEmpty` finds is a non-empty value of `vs` with only empty values
      before it. */
  lemma {:induction false} FirstNonEmptyAt(vs: seq<string>) returns (i: nat)
    requires FirstNonEmpty(vs).Some?
    ensures i < |vs| && vs[i] == FirstNonEmpty(vs).value && vs[i] != ""
    ensures forall j :: 0 <= j < i ==> vs[j] == ""
  {
    if vs[0] != "" {
      i := 0;
    } else {
      var k := FirstNonEmptyAt(vs[1..]);
      i := k + 1;
      assert forall j :: 1 <= j < i ==> vs[j] == vs[1..][j - 1];
    }
  }

  /** The memory type the loop over `dmidecode -t 17` settles on: nothing before the
      first "Memory Device" header counts; after it, the first non-empty type value
      wins, an all-empty run of values leaves the empty string, and no type line at
      all leaves `None`. */
  function RamTypeOf(lines: seq<string>): Option<string> {
    var k := FirstHeader(lines);
    if k == |lines| then None
    else
      TypeOfValues(TypeValues(lines[k + 1..]))
  }

  /** The type stays unset exactly when no line after the first device header is a
      type line. */
  lemma RamTypeNone(lines: seq<string>)
    ensures RamTypeOf(lines).None? <==> forall j :: FirstHeader(lines) < j < |lines| ==> !IsTypeLine(lines[j])
  {
    var k := FirstHeader(lines);
    if k < |lines| {
      TypeValuesNone(lines[k + 1..]);
      assert forall j :: k < j < |lines| ==> lines[j] == lines[k + 1..][j - k - 1];
    }
  }

  /** No type value is read exactly when no line is a type line. */
  lemma {:induction false} TypeValuesNone(lines: seq<string>)
    ensures TypeValues(lines) == [] <==> forall j :: 0 <= j < |lines| ==> !IsTypeLine(lines[j])
  {
    if lines != [] {
      TypeValuesNone(lines[1..]);
      assert forall j :: 1 <= j < |lines| ==> lines[j] == lines[1..][j - 1];
    }
  }

  /** The type the type values after the header leave behind. */
  function TypeOfValues(vs: seq<string>): Option<string> {
    if vs == [] then None else Some(FirstNonEmpty(vs).GetOr(""))
  }

  /** Python's `not ram_type`: the type is still open to a later line. */
  predicate Open(ramType: Option<string>) {
    ramType.None? || ramType.value == ""
  }

  /** One more type value is taken exactly when the type is still open. */
  lemma TypeOfValuesSnoc(vs: seq<string>, v: string)
    ensures TypeOfValues(vs + [v]) == if Open(TypeOfValues(vs)) then Some(v) else TypeOfValues(vs)
  {
    FirstNonEmptyConcat(vs, [v]);
    assert [v][1..] == [];
  }

  /** A non-empty type is kept whatever values follow. */
  lemma TypeOfValuesSettled(vs: seq<string>, ws: seq<string>)
    requires TypeOfValues(vs).Some? && TypeOfValues(vs).value != ""
    ensures TypeOfValues(vs + ws) == TypeOfValues(vs)
  {
    FirstNonEmptyConcat(vs, ws);
  }

  lemma {:induction false} TypeValuesConcat(a: seq<string>, b: seq<string>)
    ensures TypeValues(a + b) == TypeValues(a) + TypeValues(b)
  {
    if a == [] {
      assert a + b == b;
    } else {
      assert (a + b)[0] == a[0] && (a + b)[1..] == a[1..] + b;
      TypeValuesConcat(a[1..], b);
      assert TypeValues(a + b) == TypeValue(a[0]) + (TypeValues(a[1..]) + TypeValues(b));
    }
  }

  lemma {:induction false} FirstNonEmptyConcat(vs: seq<string>, ws: seq<string>)
    ensures FirstNonEmpty(vs + ws) == if FirstNonEmpty(vs).Some? then FirstNonEmpty(vs) else FirstNonEmpty(ws)
  {
    if vs == [] {
      assert vs + ws == ws;
    } else {
      assert (vs + ws)[0] == vs[0] && (vs + ws)[1..] == vs[1..] + ws;
      FirstNonEmptyConcat(vs[1..], ws);
    }
  }

  /** One more line of `dmidecode -t 17`: it sets the type exactly when a header has
      been seen, it is a type line, and the type so far is unset or empty. */
  lemma RamTypeStep(prefix: seq<string>, line: string)
    ensures RamTypeOf(prefix + [line]) ==
      if FirstHeader(prefix) < |prefix| && IsTypeLine(line) && Open(RamTypeOf(prefix))
      then Some(KeyValue(line, TypeKey))
      else RamTypeOf(prefix)
  {
    var lines := prefix + [line];
    FirstHeaderSnoc(prefix, line);
    if FirstHeader(prefix) < |prefix| {
      RamTypeAfterHeader(prefix, line);
    } else if IsDeviceHeader(line) {
      assert lines[|prefix| + 1..] == [];
    }
  }

  /** `RamTypeStep` once a header has been seen: the new type value, if any, joins
      the values read so far. */
  lemma RamTypeAfterHeader(prefix: seq<string>, line: string)
    requires FirstHeader(prefix) < |prefix|
    ensures FirstHeader(prefix + [line]) == FirstHeader(prefix)
    ensures RamTypeOf(prefix + [line]) ==
      if IsTypeLine(line) && Open(RamTypeOf(prefix)) then Some(KeyValue(line, TypeKey)) else RamTypeOf(prefix)
  {
    var k := FirstHeader(prefix);
    FirstHeaderSnoc(prefix, line);
    var vs := TypeValues(prefix[k + 1..]);
    assert RamTypeOf(prefix) == TypeOfValues(vs);
    assert TypeValues((prefix + [line])[k + 1..]) == vs + TypeValue(line) by {
      DropAppend(prefix, [line], k + 1);
      TypeValuesConcat(prefix[k + 1..], [line]);
      assert TypeValues([line]) == TypeValue(line) by { assert [line][1..] == []; }
    }
    assert RamTypeOf(prefix + [line]) == TypeOfValues(vs + TypeValue(line));
    if IsTypeLine(line) {
      TypeOfValuesSnoc(vs, KeyValue(line, TypeKey));
    } else {
      assert vs + [] == vs;
    }
  }

  /** Once the type is a non-empty string (even "Unknown") no later line changes it. */
  lemma RamTypeSettled(prefix: seq<string>, rest: seq<string>)
    requires RamTypeOf(prefix).Some? && RamTypeOf(prefix).value != ""
    ensures RamTypeOf(prefix + rest) == RamTypeOf(prefix)
  {
    var lines := prefix + rest;
    var k := FirstHeader(prefix);
    assert FirstHeader(lines) == k by {
      assert forall i :: 0 <= i <= k ==> lines[i] == prefix[i];
      FirstHeaderUnique(lines, k);
    }
    var before := prefix[k + 1..];
    assert TypeValues(lines[k + 1..]) == TypeValues(before) + TypeValues(rest) by {
      DropAppend(prefix, rest, k + 1);
      TypeValuesConcat(before, rest);
    }
    TypeOfValuesSettled(TypeValues(before), TypeValues(rest));
  }

  /** The same, for the lines read so far and the whole output. */
  lemma RamTypeSettledAt(lines: seq<string>, i: nat)
    requires i <= |lines|
    requires RamTypeOf(lines[..i]).Some? && RamTypeOf(lines[..i]).value != ""
    ensures RamTypeOf(lines) == RamTypeOf(lines[..i])
  {
    RamTypeSettled(lines[..i], lines[i..]);
    assert lines[..i] + lines[i..] == lines;
  }

  /** The loop over `dmidecode -t 17` (ServerSpecstoCSV.py:20-31), with its flag,
      its "only while unset" test and its early `break`. */
  method ScanRamType(lines: seq<string>) returns (ramType: Option<string>)
    ensures ramType == RamTypeOf(lines)
  {
    ramType := None;
    var inDevice := false;
    var i := 0;
    while i < |lines|
      invariant 0 <= i <= |lines|
      invariant inDevice <==> FirstHeader(lines[..i]) < i
      invariant ramType == RamTypeOf(lines[..i])
    {
      var line := lines[i];
      ghost var prefix := lines[..i];
      ghost var before := ramType;
      var settled := false;
      if IsDeviceHeader(line) {
        inDevice := true;
      } else if inDevice {
        if Contains(line, TypeKey) && Open(ramType) {
          ramType := Some(KeyValue(line, TypeKey));
          settled := ramType.value != "" && ramType.value != Unknown;
        }
      }
      assert ramType == RamTypeOf(prefix + [line]) by {
        RamTypeStep(prefix, line);
        assert Open(before) <==> Open(RamTypeOf(prefix));
      }
      assert inDevice <==> FirstHeader(prefix + [line]) < i + 1 by {
        FirstHeaderSnoc(prefix, line);
      }
      i := i + 1;
      assert lines[..i] == prefix + [line];
      if settled {
        RamTypeSettledAt(lines, i);
        break;
      }
    }
    if i == |lines| {
      assert lines[..i] == lines;
    }
  }

  // ----- installed memory from `free -g` ---------------------------------------

  /** `f"{int(free_output.splitlines()[1].split()[1])}GB"`: the second word of the
      second line, read as a decimal and written back followed by "GB"; `None` where
      Python raises (too few lines or words, or a word that is not a number). */
  function InstalledRam(freeText: string): (r: Option<string>)
    ensures var lines := SplitLines(freeText);
      if |lines| < 2 || |Words(lines[1])| < 2 || !Digits(Words(lines[1])[1]) then r.None?
      else r == Some(ShowNat(ParseDigits(Words(lines[1])[1])) + "GB")
    ensures r.Some? ==> |r.value| > 2 && r.value[|r.value| - 2..] == "GB"
                        && IsDigitString(r.value[..|r.value| - 2])
  {
    var lines := SplitLines(freeText);
    if |lines| < 2 then None
    else
      var words := Words(lines[1]);
      if |words| < 2 || !Digits(words[1]) then None
      else
        var shown := ShowNat(ParseDigits(words[1]));
        assert (shown + "GB")[..|shown|] == shown;
        Some(shown + "GB")
  }

  /** When the second word of the second line is the decimal text of `n`, the
      installed memory reads "<n>GB". */
  lemma InstalledRamReadsToken(freeText: string, n: nat)
    requires |SplitLines(freeText)| >= 2
    requires |Words(SplitLines(freeText)[1])| >= 2
    requires Words(SplitLines(freeText)[1])[1] == ShowNat(n)
    ensures InstalledRam(freeText) == Some(ShowNat(n) + "GB")
  {
    ParseShow(n);
  }

  /** The layout `free -g` prints: a header line, then a line whose first word is a
      name and whose second is the total, then anything. The installed memory is
      that total, however wide the gaps between the columns. */
  lemma InstalledRamOfFree(header: string, name: string, gap: string, n: nat, tail: string, rest: string)
    requires NoBoundary(header) && IsWord(name) && gap != [] && AllSpace(gap)
    requires NoBoundary(name + gap + ShowNat(n) + tail)
    requires tail == [] || IsSpace(tail[0])
    ensures InstalledRam(header + "\n" + (name + gap + ShowNat(n) + tail) + "\n" + rest)
            == Some(ShowNat(n) + "GB")
  {
    var line := name + gap + ShowNat(n) + tail;
    var text := header + "\n" + line + "\n" + rest;
    SecondLine(header, line, rest);
    assert IsWord(ShowNat(n)) by {
      var total := ShowNat(n);
      assert forall i :: 0 <= i < |total| ==> IsDigit(total[i]);
    }
    SecondWord(name, gap, ShowNat(n), tail);
    InstalledRamReadsToken(text, n);
  }

  /** The second line of a header, a line and the rest. */
  lemma SecondLine(header: string, line: string, rest: string)
    requires NoBoundary(header) && NoBoundary(line)
    ensures var lines := SplitLines(header + "\n" + line + "\n" + rest);
      |lines| >= 2 && lines[1] == line
  {
    var tail := line + ['\n'] + rest;
    assert header + "\n" + line + "\n" + rest == header + ['\n'] + tail;
    SplitLinesStep(header, '\n', tail);
    SplitLinesStep(line, '\n', rest);
  }

  /** The second word of a name, a gap, a word and a tail that starts with
      whitespace if anything. */
  lemma SecondWord(name: string, gap: string, word: string, tail: string)
    requires IsWord(name) && gap != [] && AllSpace(gap)
    requires IsWord(word) && (tail == [] || IsSpace(tail[0]))
    ensures var words := Words(name + gap + word + tail);
      |words| >= 2 && words[1] == word
  {
    FirstWord(word, tail);
    assert name + gap + word + tail == name + gap + (word + tail);
    WordThenWords(name, gap, word + tail);
  }

  /** The first word of a word and a tail that starts with whitespace if anything. */
  lemma FirstWord(word: string, tail: string)
    requires IsWord(word) && (tail == [] || IsSpace(tail[0]))
    ensures var words := Words(word + tail);
      |words| >= 1 && words[0] == word
  {
    if tail == [] {
      assert word + tail == word;
      OneWord(word);
    } else {
      assert word + tail == word + [tail[0]] + tail[1..];
      WordThenWords(word, [tail[0]], tail[1..]);
    }
  }

  /** `get_ram_info` (ServerSpecstoCSV.py:9-36): the memory type and the installed
      memory, or "Unknown" twice when reading `free -g` raises. */
  method GetRamInfo(freeText: string, deviceText: string) returns (ramType: Option<string>, installedRam: string)
    ensures InstalledRam(freeText).None? ==> ramType == Some(Unknown) && installedRam == Unknown
    ensures InstalledRam(freeText).Some? ==>
      ramType == RamTypeOf(Lines(deviceText)) && installedRam == InstalledRam(freeText).value
  {
    var total := InstalledRam(freeText);
    if total.None? {
      return Some(Unknown), Unknown;
    }
    ramType := ScanRamType(Lines(deviceText));
    installedRam := total.value;
  }
}
