/** The parser for what `lspci -vmm` prints: one block of `Key:\tvalue` lines per
    device, a blank line after each. The parser keeps the "Device" and "Class"
    values of each block as the record's "model" and "type", keeps the records whose
    type names a storage or network controller, and writes each as "model (type)". */
module Pcie {
  import opened Wrappers
  import opened Text

  /** A device record: Python's `current_device` dictionary. */
  type Record = map<string, string>

  const ModelField := "model"
  const TypeField := "type"
  const DeviceKey := "Device"
  const ClassKey := "Class"

  /** The class keywords of the devices worth listing. */
  const Keywords := ["storage", "ethernet", "fibre", "raid", "sas"]

  // ----- one line -----------------------------------------------------------------

  datatype Entry = Entry(key: string, value: string)

  /** `key, value = line.split(':', 1)` with both parts stripped; `None` for a line
      without a colon. */
  function ParseEntry(line: string): (e: Option<Entry>)
    ensures e.None? <==> ':' !in line
  {
    var k := IndexOf(line, ':');
    if k == |line| then None else Some(Entry(Strip(line[..k]), Strip(line[k + 1..])))
  }

  /** Only the first colon splits a line: the value keeps every later colon. */
  lemma ParseEntryFirstColon(key: string, value: string)
    requires ':' !in key
    ensures ParseEntry(key + ":" + value) == Some(Entry(Strip(key), Strip(value)))
  {
    var line := key + ":" + value;
    IndexOfUnique(line, ':', |key|);
    assert line[..|key|] == key && line[|key| + 1..] == value;
  }

  /** The line is a `key` entry, with `key` compared exactly after stripping. */
  predicate HasKey(line: string, key: string) {
    ParseEntry(line).Some? && ParseEntry(line).value.key == key
  }

  /** Keys are compared whole after stripping: a line is a "Device" or a "Class"
      entry only when the text before its first colon strips to exactly that key, so
      "SDevice" and "SVendor" lines fill nothing. */
  lemma KeyIsWhole(key: string, value: string)
    requires ':' !in key
    ensures HasKey(key + ":" + value, DeviceKey) <==> Strip(key) == DeviceKey
    ensures HasKey(key + ":" + value, ClassKey) <==> Strip(key) == ClassKey
  {
    ParseEntryFirstColon(key, value);
  }

  /** The record after one non-blank line is read into it (ServerSpecstoCSV.py:51-59):
      a line without a colon changes nothing, and at most the "model" and "type"
      fields are added or overwritten. */
  function Absorb(rec: Record, line: string): (r: Record)
    ensures ':' !in line ==> r == rec
    ensures rec.Keys <= r.Keys <= rec.Keys + {ModelField, TypeField}
    ensures forall k :: k in rec && k != ModelField && k != TypeField ==> r[k] == rec[k]
  {
    match ParseEntry(line)
    case None => rec
    case Some(e) =>
      if e.key == DeviceKey then rec[ModelField := e.value]
      else if e.key == ClassKey then rec[TypeField := e.value]
      else rec
  }

  /** What reading a line with a colon does to the record, by its stripped key. */
  lemma AbsorbEntry(rec: Record, line: string)
    requires ':' in line
    ensures ParseEntry(line).Some?
    ensures var e := ParseEntry(line).value;
      Absorb(rec, line) ==
        if e.key == DeviceKey then rec[ModelField := e.value]
        else if e.key == ClassKey then rec[TypeField := e.value]
        else rec
  {
  }

  /** The record read from the lines of one block, in order. */
  function RecordOf(block: seq<string>): (rec: Record)
    ensures rec.Keys <= {ModelField, TypeField}
  {
    if block == [] then map[] else Absorb(RecordOf(block[..|block| - 1]), block[|block| - 1])
  }

  /** The record field each captured key fills. */
  predicate Captures(key: string, field: string) {
    (key == DeviceKey && field == ModelField) || (key == ClassKey && field == TypeField)
  }

  /** A later entry overwrites an earlier one: the field holds the value of the last
      line with its key. */
  lemma {:induction false} RecordLastEntry(block: seq<string>, key: string, field: string, i: nat)
    requires Captures(key, field)
    requires i < |block| && HasKey(block[i], key)
    requires forall j :: i < j < |block| ==> !HasKey(block[j], key)
    ensures field in RecordOf(block) && RecordOf(block)[field] == ParseEntry(block[i]).value.value
    decreases |block|
  {
    var init := block[..|block| - 1];
    var last := block[|block| - 1];
    assert RecordOf(block) == Absorb(RecordOf(init), last);
    if i < |block| - 1 {
      assert forall j :: i < j < |init| ==> init[j] == block[j];
      RecordLastEntry(init, key, field, i);
      AbsorbOther(RecordOf(init), last, key, field);
    } else {
      AbsorbOwn(RecordOf(init), last, key, field);
    }
  }

  /** A line with the captured key sets its field to the line's value. */
  lemma AbsorbOwn(rec: Record, line: string, key: string, field: string)
    requires Captures(key, field) && HasKey(line, key)
    ensures field in Absorb(rec, line) && Absorb(rec, line)[field] == ParseEntry(line).value.value
  {
  }

  /** A line without the captured key leaves its field as it was. */
  lemma AbsorbOther(rec: Record, line: string, key: string, field: string)
    requires Captures(key, field) && !HasKey(line, key)
    ensures (field in Absorb(rec, line) <==> field in rec)
    ensures field in rec ==> Absorb(rec, line)[field] == rec[field]
  {
  }

  /** A field whose key no line of the block has stays out of the record. */
  lemma {:induction false} RecordNoEntry(block: seq<string>, key: string, field: string)
    requires Captures(key, field)
    requires forall j :: 0 <= j < |block| ==> !HasKey(block[j], key)
    ensures field !in RecordOf(block)
    decreases |block|
  {
    if block != [] {
      var init := block[..|block| - 1];
      assert forall j :: 0 <= j < |init| ==> init[j] == block[j];
      RecordNoEntry(init, key, field);
      AbsorbOther(RecordOf(init), block[|block| - 1], key, field);
    }
  }

  // ----- blocks ----------------------------------------------------------------------

  predicate NoBlank(lines: seq<string>) {
    forall i :: 0 <= i < |lines| ==> !AllSpace(lines[i])
  }

  /** The lines read since the last blank line: the record still being read. */
  function Pending(lines: seq<string>): seq<string> {
    if lines == [] then []
    else if AllSpace(lines[|lines| - 1]) then []
    else Pending(lines[..|lines| - 1]) + [lines[|lines| - 1]]
  }

  /** The blocks that blank lines have ended, in order: each blank line ends the
      pending block, even an empty one. */
  function Blocks(lines: seq<string>): seq<seq<string>> {
    if lines == [] then []
    else if AllSpace(lines[|lines| - 1]) then Blocks(lines[..|lines| - 1]) + [Pending(lines[..|lines| - 1])]
    else Blocks(lines[..|lines| - 1])
  }

  /** Reading one more line: a blank line ends the pending block and starts an empty
      one; any other line joins the pending block and ends nothing. */
  lemma BlocksSnoc(prefix: seq<string>, line: string)
    ensures Blocks(prefix + [line]) == if AllSpace(line) then Blocks(prefix) + [Pending(prefix)] else Blocks(prefix)
    ensures Pending(prefix + [line]) == if AllSpace(line) then [] else Pending(prefix) + [line]
  {
    assert (prefix + [line])[..|prefix|] == prefix;
  }

  /** No block and no pending record holds a blank line. */
  lemma {:induction false} BlocksHaveNoBlank(lines: seq<string>)
    ensures forall b :: b in Blocks(lines) ==> NoBlank(b)
    ensures NoBlank(Pending(lines))
    decreases |lines|
  {
    if lines != [] {
      var init := lines[..|lines| - 1];
      BlocksHaveNoBlank(init);
      var p := Pending(init) + [lines[|lines| - 1]];
      assert forall i :: 0 <= i < |Pending(init)| ==> p[i] == Pending(init)[i];
    }
  }

  /** The pending lines are the last lines of the text after its last blank line:
      a suffix of it, preceded by a blank line unless they are the whole text. */
  lemma {:induction false} PendingSuffix(lines: seq<string>)
    ensures |Pending(lines)| <= |lines| && Pending(lines) == lines[|lines| - |Pending(lines)|..]
    ensures |Pending(lines)| < |lines| ==> AllSpace(lines[|lines| - |Pending(lines)| - 1])
    decreases |lines|
  {
    if lines != [] && !AllSpace(lines[|lines| - 1]) {
      var init, last := lines[..|lines| - 1], lines[|lines| - 1];
      assert Pending(lines) == Pending(init) + [last];
      var n := |Pending(init)|;
      assert n <= |init| && Pending(init) == init[|init| - n..] by {
        PendingSuffix(init);
      }
      assert n < |init| ==> AllSpace(init[|init| - n - 1]) by {
        PendingSuffix(init);
      }
      assert lines[|lines| - n - 1..] == init[|init| - n..] + [last];
      assert n < |init| ==> lines[|lines| - n - 2] == init[|init| - n - 1];
    } else {
      assert Pending(lines) == [];
    }
  }

  /** Lines without a blank one end no block: a record still pending at the end of
      the text is never emitted. */
  lemma {:induction false} BlocksNoBlank(prefix: seq<string>, rest: seq<string>)
    requires NoBlank(rest)
    ensures Blocks(prefix + rest) == Blocks(prefix)
    ensures Pending(prefix + rest) == Pending(prefix) + rest
    decreases |rest|
  {
    if rest == [] {
      assert prefix + rest == prefix;
    } else {
      var init, last := rest[..|rest| - 1], rest[|rest| - 1];
      assert NoBlank(init) && !AllSpace(last) by {
        assert forall i :: 0 <= i < |init| ==> init[i] == rest[i];
      }
      assert Blocks(prefix + init) == Blocks(prefix) && Pending(prefix + init) == Pending(prefix) + init by {
        BlocksNoBlank(prefix, init);
      }
      assert Blocks(prefix + rest) == Blocks(prefix + init) && Pending(prefix + rest) == Pending(prefix + init) + [last] by {
        assert prefix + rest == (prefix + init) + [last];
        BlocksSnoc(prefix + init, last);
      }
      assert (Pending(prefix) + init) + [last] == Pending(prefix) + rest;
    }
  }

  /** The parser starts afresh after every blank line: what follows is read as if
      it were the whole text. */
  lemma {:induction false} BlocksAfterBlank(prefix: seq<string>, blank: string, rest: seq<string>)
    requires AllSpace(blank)
    ensures Blocks(prefix + [blank] + rest) == Blocks(prefix + [blank]) + Blocks(rest)
    ensures Pending(prefix + [blank] + rest) == Pending(rest)
    decreases |rest|
  {
    var closed := prefix + [blank];
    if rest == [] {
      BlocksSnoc(prefix, blank);
      assert closed + rest == closed;
    } else {
      var init := rest[..|rest| - 1];
      var last := rest[|rest| - 1];
      assert closed + rest == (closed + init) + [last];
      BlocksAfterBlank(prefix, blank, init);
      BlocksSnoc(closed + init, last);
      if AllSpace(last) {
        AppendAssoc(Blocks(closed), Blocks(init), [Pending(init)]);
      }
    }
  }

  /** The text made of the blocks `bs`, each followed by its blank line from
      `blanks`. */
  function Framed(bs: seq<seq<string>>, blanks: seq<string>): (lines: seq<string>)
    requires |blanks| == |bs|
  {
    if bs == [] then []
    else Framed(bs[..|bs| - 1], blanks[..|bs| - 1]) + bs[|bs| - 1] + [blanks[|bs| - 1]]
  }

  /** Blocks of non-blank lines, each closed by a blank line and followed by
      non-blank lines, are read back as exactly those blocks, with those last lines
      pending. */
  lemma {:induction false} BlocksOfFramed(bs: seq<seq<string>>, blanks: seq<string>, rest: seq<string>)
    requires |blanks| == |bs|
    requires forall j :: 0 <= j < |bs| ==> NoBlank(bs[j]) && AllSpace(blanks[j])
    requires NoBlank(rest)
    ensures Blocks(Framed(bs, blanks) + rest) == bs
    ensures Pending(Framed(bs, blanks) + rest) == rest
    decreases |bs|
  {
    var lines := Framed(bs, blanks);
    BlocksNoBlank(lines, rest);
    if bs == [] {
      assert Pending([]) == [] && Blocks([]) == [];
    } else {
      var n := |bs| - 1;
      assert Blocks(Framed(bs[..n], blanks[..n]) + bs[n]) == bs[..n] by {
        BlocksOfFramed(bs[..n], blanks[..n], bs[n]);
      }
      assert Pending(Framed(bs[..n], blanks[..n]) + bs[n]) == bs[n] by {
        BlocksOfFramed(bs[..n], blanks[..n], bs[n]);
      }
      FramedLast(bs, blanks);
      assert Pending(lines) + rest == rest;
    }
  }

  /** The last framed block: once the blocks before it and the block itself are read
      back, its blank line closes it. */
  lemma FramedLast(bs: seq<seq<string>>, blanks: seq<string>)
    requires |blanks| == |bs| > 0
    requires AllSpace(blanks[|bs| - 1])
    requires var n := |bs| - 1;
      var before := Framed(bs[..n], blanks[..n]);
      Blocks(before + bs[n]) == bs[..n] && Pending(before + bs[n]) == bs[n]
    ensures Blocks(Framed(bs, blanks)) == bs && Pending(Framed(bs, blanks)) == []
  {
    var n := |bs| - 1;
    var p := Framed(bs[..n], blanks[..n]) + bs[n];
    assert Framed(bs, blanks) == p + [blanks[n]];
    BlocksSnoc(p, blanks[n]);
    assert Blocks(p + [blanks[n]]) == bs[..n] + [bs[n]];
    assert bs[..n] + [bs[n]] == bs;
  }

  /** A non-blank line leaves the blocks as they are and is read into the pending
      record. */
  lemma NonBlankStep(prefix: seq<string>, line: string)
    requires !AllSpace(line)
    ensures Blocks(prefix + [line]) == Blocks(prefix)
    ensures RecordOf(Pending(prefix + [line])) == Absorb(RecordOf(Pending(prefix)), line)
  {
    BlocksSnoc(prefix, line);
    var p := Pending(prefix) + [line];
    assert p[..|p| - 1] == Pending(prefix);
  }

  /** A blank line flushes the pending record, keeps it when it is non-empty and
      wanted, and starts an empty one. */
  lemma BlankStep(prefix: seq<string>, line: string)
    requires AllSpace(line)
    ensures Pending(prefix + [line]) == []
    ensures Wanted(Flushed(Blocks(prefix + [line]))) ==
      var rec := RecordOf(Pending(prefix));
      Wanted(Flushed(Blocks(prefix))) + (if rec != map[] && IsWanted(rec) then [rec] else [])
  {
    BlocksSnoc(prefix, line);
    var rec := RecordOf(Pending(prefix));
    var flushed := Flushed(Blocks(prefix));
    FlushedSnoc(Blocks(prefix), Pending(prefix));
    if rec != map[] {
      assert Flushed(Blocks(prefix + [line])) == flushed + [rec];
      WantedSnoc(flushed, rec);
    } else {
      assert Flushed(Blocks(prefix + [line])) == flushed + [];
      assert flushed + [] == flushed;
    }
  }

  // ----- records, filtering and formatting -----------------------------------------------

  /** The records flushed at the ends of the blocks: the non-empty ones (Python's
      `if current_device:`). */
  function Flushed(bs: seq<seq<string>>): (recs: seq<Record>)
    ensures |recs| <= |bs|
  {
    if bs == [] then [] else Flushed(bs[..|bs| - 1]) + FlushOne(bs[|bs| - 1])
  }

  /** What the end of one block flushes: its record, unless that is empty. */
  function FlushOne(b: seq<string>): seq<Record> {
    var rec := RecordOf(b);
    if rec != map[] then [rec] else []
  }

  lemma FlushedSnocAt(bs: seq<seq<string>>, init: seq<seq<string>>, b: seq<string>)
    requires bs == init + [b]
    ensures Flushed(bs) == Flushed(init) + FlushOne(b)
  {
    FlushedSnoc(init, b);
  }

  lemma FlushedSnoc(bs: seq<seq<string>>, b: seq<string>)
    ensures Flushed(bs + [b]) == Flushed(bs) + FlushOne(b)
  {
    assert (bs + [b])[..|bs|] == bs;
  }

  /** The record has a type, and its lower-cased type contains one of the keywords. */
  predicate IsWanted(rec: Record) {
    TypeField in rec && exists j :: 0 <= j < |Keywords| && Contains(Lower(rec[TypeField]), Keywords[j])
  }

  /** The wanted records, in order (the `devices` list). */
  function Wanted(recs: seq<Record>): (kept: seq<Record>)
    ensures |kept| <= |recs|
  {
    if recs == [] then []
    else
      var rec := recs[|recs| - 1];
      Wanted(recs[..|recs| - 1]) + (if IsWanted(rec) then [rec] else [])
  }

  lemma WantedSnoc(recs: seq<Record>, rec: Record)
    ensures Wanted(recs + [rec]) == Wanted(recs) + (if IsWanted(rec) then [rec] else [])
  {
    assert (recs + [rec])[..|recs|] == recs;
  }

  /** The filter works record by record: it distributes over concatenation. With
      `WantedOne`, it keeps every wanted record, in input order, and nothing else. */
  lemma {:induction false} WantedConcat(a: seq<Record>, b: seq<Record>)
    ensures Wanted(a + b) == Wanted(a) + Wanted(b)
    decreases |b|
  {
    if b == [] {
      assert a + b == a;
    } else {
      var init, last := b[..|b| - 1], b[|b| - 1];
      var tail := if IsWanted(last) then [last] else [];
      assert Wanted(a + init) == Wanted(a) + Wanted(init) by {
        WantedConcat(a, init);
      }
      assert Wanted(a + b) == Wanted(a + init) + tail by {
        assert a + b == (a + init) + [last];
        WantedSnoc(a + init, last);
      }
      assert Wanted(b) == Wanted(init) + tail by {
        assert b == init + [last];
        WantedSnoc(init, last);
      }
      AppendAssoc(Wanted(a), Wanted(init), tail);
    }
  }

  /** A single record is kept exactly when it is wanted. */
  lemma WantedOne(rec: Record)
    ensures Wanted([rec]) == if IsWanted(rec) then [rec] else []
  {
    WantedSnoc([], rec);
    assert [] + [rec] == [rec];
  }

  /** Every record the filter keeps is wanted. */
  lemma {:induction false} WantedKept(recs: seq<Record>)
    ensures forall r :: r in Wanted(recs) ==> IsWanted(r)
    decreases |recs|
  {
    if recs != [] {
      WantedKept(recs[..|recs| - 1]);
    }
  }

  /** A list of wanted records is kept whole. */
  lemma {:induction false} WantedAll(recs: seq<Record>)
    requires forall i :: 0 <= i < |recs| ==> IsWanted(recs[i])
    ensures Wanted(recs) == recs
    decreases |recs|
  {
    if recs != [] {
      var init, last := recs[..|recs| - 1], recs[|recs| - 1];
      assert recs == init + [last];
      assert Wanted(init) == init by {
        assert forall i :: 0 <= i < |init| ==> init[i] == recs[i];
        WantedAll(init);
      }
      assert Wanted(init + [last]) == Wanted(init) + [last] by {
        WantedSnoc(init, last);
      }
    }
  }

  /** `f"{device['model']} ({device['type']})"`. */
  function Show(rec: Record): string
    requires ModelField in rec && TypeField in rec
  {
    rec[ModelField] + " (" + rec[TypeField] + ")"
  }

  /** The strings of the records that have both a model and a type, in order. */
  function Shown(recs: seq<Record>): (strs: seq<string>)
    ensures |strs| <= |recs|
  {
    if recs == [] then []
    else
      var rec := recs[|recs| - 1];
      Shown(recs[..|recs| - 1]) + (if ModelField in rec && TypeField in rec then [Show(rec)] else [])
  }

  /** What `get_pcie_devices` returns for the lines of `lspci -vmm`: no more strings
      than flushed records. */
  function DeviceStrings(lines: seq<string>): (strs: seq<string>)
    ensures |strs| <= |Flushed(Blocks(lines))|
  {
    Shown(Wanted(Flushed(Blocks(lines))))
  }

  /** When every record has a model and a type, each one is shown, in order, as
      exactly "model (type)". */
  lemma {:induction false} ShownAll(recs: seq<Record>)
    requires forall r :: r in recs ==> ModelField in r && TypeField in r
    ensures |Shown(recs)| == |recs|
    ensures forall i :: 0 <= i < |recs| ==> Shown(recs)[i] == Show(recs[i])
  {
    if recs != [] {
      var init := recs[..|recs| - 1];
      assert forall r :: r in init ==> r in recs;
      ShownAll(init);
    }
  }

  lemma ShownSnoc(recs: seq<Record>, rec: Record)
    ensures Shown(recs + [rec]) == Shown(recs) + (if ModelField in rec && TypeField in rec then [Show(rec)] else [])
  {
    assert (recs + [rec])[..|recs|] == recs;
  }

  /** Formatting works record by record: it distributes over concatenation. With
      `ShownOne`, the strings are those of the records that have both fields, in
      order. */
  lemma {:induction false} ShownConcat(a: seq<Record>, b: seq<Record>)
    ensures Shown(a + b) == Shown(a) + Shown(b)
    decreases |b|
  {
    if b == [] {
      assert a + b == a;
    } else {
      var init, last := b[..|b| - 1], b[|b| - 1];
      assert a + b == (a + init) + [last];
      ShownConcat(a, init);
      ShownSnoc(a + init, last);
      assert b == init + [last];
    }
  }

  /** A single record gives its "model (type)" string exactly when it has both
      fields, and nothing otherwise. */
  lemma ShownOne(rec: Record)
    ensures Shown([rec]) == if ModelField in rec && TypeField in rec then [Show(rec)] else []
  {
    ShownSnoc([], rec);
    assert [] + [rec] == [rec];
  }

  /** The flushed records distribute over the blocks. */
  lemma {:induction false} FlushedConcat(a: seq<seq<string>>, b: seq<seq<string>>)
    ensures Flushed(a + b) == Flushed(a) + Flushed(b)
    decreases |b|
  {
    if b == [] {
      assert a + b == a;
    } else {
      var init, last := b[..|b| - 1], b[|b| - 1];
      assert Flushed(a + init) == Flushed(a) + Flushed(init) by {
        FlushedConcat(a, init);
      }
      var tail := FlushOne(last);
      AppendLast(a, b);
      FlushedSnocAt(a + b, a + init, last);
      FlushedSnocAt(b, init, last);
      AppendAssoc(Flushed(a), Flushed(init), tail);
    }
  }

  /** The output after a blank line is independent of what came before: the
      strings of a text cut after a blank line are those of the two parts. */
  lemma DeviceStringsAfterBlank(prefix: seq<string>, blank: string, rest: seq<string>)
    requires AllSpace(blank)
    ensures DeviceStrings(prefix + [blank] + rest) == DeviceStrings(prefix + [blank]) + DeviceStrings(rest)
  {
    BlocksAfterBlank(prefix, blank, rest);
    var bs1, bs2 := Blocks(prefix + [blank]), Blocks(rest);
    FlushedConcat(bs1, bs2);
    WantedConcat(Flushed(bs1), Flushed(bs2));
    ShownConcat(Wanted(Flushed(bs1)), Wanted(Flushed(bs2)));
  }

  // ----- the parser -----------------------------------------------------------------------

  /** The first loop of `get_pcie_devices` (ServerSpecstoCSV.py:49-66): the wanted
      records of the blocks, in order. */
  method CollectDevices(lines: seq<string>) returns (devices: seq<Record>)
    ensures devices == Wanted(Flushed(Blocks(lines)))
  {
    devices := [];
    var current: Record := map[];
    for i := 0 to |lines|
      invariant devices == Wanted(Flushed(Blocks(lines[..i])))
      invariant current == RecordOf(Pending(lines[..i]))
    {
      var line := lines[i];
      ghost var prefix := lines[..i];
      ghost var before := current;
      if Strip(line) != [] {
        if ':' in line {
          AbsorbEntry(current, line);
          var entry := ParseEntry(line).value;
          if entry.key == DeviceKey {
            current := current[ModelField := entry.value];
          } else if entry.key == ClassKey {
            current := current[TypeField := entry.value];
          }
        }
        assert current == Absorb(before, line);
        assert current == RecordOf(Pending(prefix + [line])) && devices == Wanted(Flushed(Blocks(prefix + [line]))) by {
          NonBlankStep(prefix, line);
        }
      } else {
        if current != map[] {
          if IsWanted(current) {
            devices := devices + [current];
          }
        }
        current := map[];
        assert current == RecordOf(Pending(prefix + [line])) && devices == Wanted(Flushed(Blocks(prefix + [line]))) by {
          BlankStep(prefix, line);
        }
      }
      assert current == RecordOf(Pending(lines[..i + 1])) && devices == Wanted(Flushed(Blocks(lines[..i + 1]))) by {
        TakeSnoc(lines, i);
      }
    }
    assert lines[..|lines|] == lines;
  }

  /** The second loop of `get_pcie_devices` (ServerSpecstoCSV.py:68-72): one
      "model (type)" string per record that has both fields. */
  method ShowDevices(devices: seq<Record>) returns (deviceStrings: seq<string>)
    ensures deviceStrings == Shown(devices)
  {
    deviceStrings := [];
    for i := 0 to |devices|
      invariant deviceStrings == Shown(devices[..i])
    {
      var device := devices[i];
      if ModelField in device && TypeField in device {
        deviceStrings := deviceStrings + [device[ModelField] + " (" + device[TypeField] + ")"];
      }
      assert deviceStrings == Shown(devices[..i + 1]) by {
        TakeSnoc(devices, i);
        assert devices[..i + 1][..i] == devices[..i];
      }
    }
    assert devices[..|devices|] == devices;
  }

  /** `get_pcie_devices` (ServerSpecstoCSV.py:46-74) on the output of `lspci -vmm`. */
  method GetPcieDevices(text: string) returns (deviceStrings: seq<string>)
    ensures deviceStrings == DeviceStrings(Lines(text))
  {
    var devices := CollectDevices(Lines(text));
    deviceStrings := ShowDevices(devices);
  }
}
