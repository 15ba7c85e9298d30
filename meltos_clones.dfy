/** The clone bookkeeping of plot_scripts/meltos_plot.py (lines 10-149):
    reading the clone IDs of every node from the Meltos output
    (`parse_meltos_output_for_clones`), saving them as a two-column table
    (`save_node_clone_mapping_to_tsv`), and joining that table with the SV
    file (`match_node_id_with_sv_and_save`).

    A file is the sequence of its lines as iterating over it yields them.
    Every line is stripped before use, so whether a line still carries its
    '\n' makes no difference. */
module MeltosClones {
  import opened Wrappers
  import opened Text
  import opened Dicts

  // ---------------------------------------------------------------------
  // parse_meltos_output_for_clones

  /** `[int(x) for x in pieces if x.isdigit()]` */
  function DigitPieces(ps: seq<string>): seq<nat>
    decreases |ps|
  {
    if ps == [] then []
    else
      var last := ps[|ps| - 1];
      DigitPieces(ps[..|ps| - 1]) + (if IsDigits(last) then [DecimalValue(last)] else [])
  }

  /** The clone IDs one field contributes: its comma pieces that are digits. */
  function FieldClones(part: string): seq<nat> {
    DigitPieces(Split(part, ','))
  }

  /** The clone IDs of all the fields, in order. */
  function AllClones(parts: seq<string>): seq<nat>
    decreases |parts|
  {
    if parts == [] then [] else AllClones(parts[..|parts| - 1]) + FieldClones(parts[|parts| - 1])
  }

  predicate Closes(part: string) {
    EndsWith(part, "]")
  }

  /** The index of the first field that ends with "]", the end of the array
      field that precedes the clone IDs. */
  function FirstClosing(parts: seq<string>): (r: Option<nat>)
    ensures r.None? <==> forall i :: 0 <= i < |parts| ==> !Closes(parts[i])
    ensures r.Some? ==> r.value < |parts| && Closes(parts[r.value])
    ensures r.Some? ==> forall i :: 0 <= i < r.value ==> !Closes(parts[i])
    decreases |parts|
  {
    if parts == [] then None
    else
      var n := |parts| - 1;
      var r := FirstClosing(parts[..n]);
      assert forall i :: 0 <= i < n ==> parts[..n][i] == parts[i];
      if r.Some? then r
      else if Closes(parts[n]) then Some(n)
      else None
  }

  lemma FirstClosingSnoc(parts: seq<string>, x: string)
    ensures FirstClosing(parts + [x]) ==
              if FirstClosing(parts).Some? then FirstClosing(parts)
              else if Closes(x) then Some(|parts|) else None
  {
    assert (parts + [x])[..|parts|] == parts;
  }

  /** The clone IDs of a "Valid" line with fields `parts` (at least four):
      the digit pieces of every field after the first field, from index 4
      on, that ends with "]"; none when no field there ends with "]". */
  function LineClones(parts: seq<string>): seq<nat>
    requires |parts| >= 4
  {
    var rest := parts[4..];
    match FirstClosing(rest)
    case None => []
    case Some(k) => AllClones(rest[k + 1..])
  }

  lemma AllClonesStep(rest: seq<string>, a: nat, j: nat)
    requires a <= j < |rest|
    ensures AllClones(rest[a..j + 1]) == AllClones(rest[a..j]) + FieldClones(rest[j])
  {
    assert rest[a..j + 1][..j - a] == rest[a..j];
  }

  /** After the first j fields: `found` says whether a field ended with "]",
      the k-th being the first, and `ids` holds the clone IDs after it. */
  ghost predicate Scanned(rest: seq<string>, j: nat, found: bool, k: nat, ids: seq<nat>)
    requires j <= |rest|
  {
    && (found ==> FirstClosing(rest[..j]) == Some(k) && k < j && ids == AllClones(rest[k + 1..j]))
    && (!found ==> FirstClosing(rest[..j]) == None && ids == [])
  }

  /** One field more: after the closing field its clone IDs are collected,
      before it the first field ending with "]" is the closing one. */
  lemma ScanStep(rest: seq<string>, j: nat, found: bool, k: nat, ids: seq<nat>)
    requires j < |rest| && Scanned(rest, j, found, k, ids)
    ensures found ==> Scanned(rest, j + 1, true, k, ids + FieldClones(rest[j]))
    ensures !found && Closes(rest[j]) ==> Scanned(rest, j + 1, true, j, ids)
    ensures !found && !Closes(rest[j]) ==> Scanned(rest, j + 1, false, k, ids)
  {
    FirstClosingSnoc(rest[..j], rest[j]);
    assert rest[..j + 1] == rest[..j] + [rest[j]];
    if found {
      AllClonesStep(rest, k + 1, j);
    }
  }

  /** The field loop of lines 21-29, with its `array_end_found` flag. */
  method ScanClones(parts: seq<string>) returns (ids: seq<nat>)
    requires |parts| >= 4
    ensures ids == LineClones(parts)
  {
    var rest := parts[4..];
    ids := [];
    var found := false;
    ghost var k: nat := 0;
    var j := 0;
    while j < |rest|
      invariant 0 <= j <= |rest| && Scanned(rest, j, found, k, ids)
    {
      var part := rest[j];
      ScanStep(rest, j, found, k, ids);
      if found {
        ids := ids + FieldClones(part);
      } else if StartsWith(part, "[") && EndsWith(part, "]") {
        found := true;
        k := j;
      } else if EndsWith(part, "]") {
        found := true;
        k := j;
      }
      j := j + 1;
    }
    ScanEnd(parts, found, k, ids);
  }

  /** After the last field the collected IDs are the line's clone IDs. */
  lemma ScanEnd(parts: seq<string>, found: bool, k: nat, ids: seq<nat>)
    requires |parts| >= 4 && Scanned(parts[4..], |parts| - 4, found, k, ids)
    ensures ids == LineClones(parts)
  {
    var rest := parts[4..];
    assert rest[..|rest|] == rest;
    if found {
      assert rest[k + 1..|rest|] == rest[k + 1..];
    }
  }

  /** A line that carries clone IDs: it starts with "Valid" and has at least
      four fields. */
  predicate IsValidLine(line: string) {
    StartsWith(line, "Valid") && |Fields(line)| >= 4
  }

  /** `node_clone_mapping`: for each "Valid" line, its third field mapped to
      its clone IDs; a later line for the same node overwrites the list. */
  function CloneMapping(lines: seq<string>): Dict<string, seq<nat>>
    decreases |lines|
  {
    if lines == [] then Empty()
    else
      var d := CloneMapping(lines[..|lines| - 1]);
      var line := lines[|lines| - 1];
      if IsValidLine(line) then d.Put(Fields(line)[2], LineClones(Fields(line))) else d
  }

  /** `parse_meltos_output_for_clones` (lines 10-31). */
  method ParseMeltosOutputForClones(lines: seq<string>) returns (d: Dict<string, seq<nat>>)
    ensures d == CloneMapping(lines)
  {
    d := Empty();
    for i := 0 to |lines|
      invariant d == CloneMapping(lines[..i])
    {
      var line := lines[i];
      assert lines[..i + 1][..i] == lines[..i];
      if StartsWith(line, "Valid") {
        var parts := Fields(line);
        if |parts| >= 4 {
          var node := parts[2];
          var ids := ScanClones(parts);
          d := d.Put(node, ids);
        }
      }
    }
    assert lines[..|lines|] == lines;
  }

  /** The node a "Valid" line names. */
  predicate Names(lines: seq<string>, i: int, n: string) {
    0 <= i < |lines| && IsValidLine(lines[i]) && Fields(lines[i])[2] == n
  }

  /** The mapping has one entry per node named on a "Valid" line. */
  lemma {:induction false} CloneMappingKeys(lines: seq<string>)
    ensures forall n :: n in CloneMapping(lines).items <==> exists i :: Names(lines, i, n)
    decreases |lines|
  {
    if lines != [] {
      var init := lines[..|lines| - 1];
      var line := lines[|lines| - 1];
      CloneMappingKeys(init);
      forall n ensures n in CloneMapping(lines).items <==> exists i :: Names(lines, i, n) {
        if n in CloneMapping(init).items {
          var i :| Names(init, i, n);
          assert init[i] == lines[i];
          assert Names(lines, i, n);
        }
        if IsValidLine(line) && Fields(line)[2] == n {
          assert Names(lines, |lines| - 1, n);
        }
        if exists i :: Names(lines, i, n) {
          var i :| Names(lines, i, n);
          if i < |init| {
            assert init[i] == lines[i];
            assert Names(init, i, n);
          }
        }
      }
    }
  }

  /** The mapping lists each of its keys once, in the order of first
      insertion. */
  lemma {:induction false} CloneMappingValid(lines: seq<string>)
    ensures CloneMapping(lines).Valid()
    decreases |lines|
  {
    if lines != [] {
      var line := lines[|lines| - 1];
      CloneMappingValid(lines[..|lines| - 1]);
      if IsValidLine(line) {
        PutValid(CloneMapping(lines[..|lines| - 1]), Fields(line)[2], LineClones(Fields(line)));
      }
    }
  }

  /** Each node's list is that of the last "Valid" line naming it. */
  lemma CloneMappingLast(lines: seq<string>, n: string)
    requires n in CloneMapping(lines).items
    ensures exists i :: Names(lines, i, n) &&
              CloneMapping(lines).items[n] == LineClones(Fields(lines[i])) &&
              forall j :: i < j < |lines| ==> !Names(lines, j, n)
  {
    var i := LastNaming(lines, n);
    CloneMappingAt(lines, n);
    assert Names(lines, i, n);
  }

  /** The index of the last line naming `n`, or -1 when there is none. */
  function LastNaming(lines: seq<string>, n: string): (r: int)
    ensures -1 <= r < |lines|
    ensures r >= 0 ==> Names(lines, r, n)
    ensures forall j :: r < j < |lines| ==> !Names(lines, j, n)
    decreases |lines|
  {
    if lines == [] then -1
    else if Names(lines, |lines| - 1, n) then |lines| - 1
    else
      NamesInitAll(lines, n);
      LastNaming(lines[..|lines| - 1], n)
  }

  lemma {:induction false} CloneMappingAt(lines: seq<string>, n: string)
    requires n in CloneMapping(lines).items
    ensures LastNaming(lines, n) >= 0
    ensures CloneMapping(lines).items[n] == LineClones(Fields(lines[LastNaming(lines, n)]))
    decreases |lines|
  {
    var init := lines[..|lines| - 1];
    if !Names(lines, |lines| - 1, n) {
      CloneMappingInit(lines, n);
      CloneMappingAt(init, n);
      var i := LastNaming(init, n);
      assert LastNaming(lines, n) == i;
      assert init[i] == lines[i];
    }
  }

  /** A line that does not name `n` leaves its list as it was. */
  lemma CloneMappingInit(lines: seq<string>, n: string)
    requires lines != [] && n in CloneMapping(lines).items
    requires !Names(lines, |lines| - 1, n)
    ensures n in CloneMapping(lines[..|lines| - 1]).items
    ensures CloneMapping(lines).items[n] == CloneMapping(lines[..|lines| - 1]).items[n]
  {
  }

  lemma NamesInitAll(lines: seq<string>, n: string)
    requires lines != []
    ensures forall j :: 0 <= j < |lines| - 1 ==> Names(lines[..|lines| - 1], j, n) == Names(lines, j, n)
  {
    forall j | 0 <= j < |lines| - 1
      ensures Names(lines[..|lines| - 1], j, n) == Names(lines, j, n)
    {
      assert lines[..|lines| - 1][j] == lines[j];
    }
  }

  // ---------------------------------------------------------------------
  // save_node_clone_mapping_to_tsv

  /** `list(map(str, ids))` */
  function Strings(ids: seq<nat>): (r: seq<string>)
    ensures |r| == |ids| && forall i :: 0 <= i < |ids| ==> r[i] == NatToString(ids[i])
  {
    seq(|ids|, i requires 0 <= i < |ids| => NatToString(ids[i]))
  }

  /** `','.join(map(str, ids))` */
  function CloneList(ids: seq<nat>): string {
    Join(Strings(ids), ",")
  }

  /** The line written for one node. */
  function MappingLine(node: string, ids: seq<nat>): string {
    node + "\t" + CloneList(ids) + "\n"
  }

  const MappingHeader: string := "Node_ID\tClone_IDs\n"

  /** The node lines, in the dictionary's key order. */
  function MappingLines(keys: seq<string>, items: map<string, seq<nat>>): seq<string>
    requires forall k :: k in keys ==> k in items
    decreases |keys|
  {
    if keys == [] then []
    else
      var k := keys[|keys| - 1];
      MappingLines(keys[..|keys| - 1], items) + [MappingLine(k, items[k])]
  }

  /** What `save_node_clone_mapping_to_tsv` writes. */
  function SavedMapping(d: Dict<string, seq<nat>>): seq<string>
    requires d.Valid()
  {
    [MappingHeader] + MappingLines(d.keys, d.items)
  }

  /** `save_node_clone_mapping_to_tsv` (lines 34-40). */
  method SaveNodeCloneMapping(d: Dict<string, seq<nat>>) returns (out: seq<string>)
    requires d.Valid()
    ensures out == SavedMapping(d)
  {
    out := [MappingHeader];
    for i := 0 to |d.keys|
      invariant out == [MappingHeader] + MappingLines(d.keys[..i], d.items)
    {
      var node := d.keys[i];
      assert d.keys[..i + 1][..i] == d.keys[..i];
      out := out + [MappingLine(node, d.items[node])];
    }
    assert d.keys[..|d.keys|] == d.keys;
  }

  // ---------------------------------------------------------------------
  // Reading the table back (match_node_id_with_sv_and_save, lines 116-124)

  /** `parts[1].split(",") if parts[1] else []` */
  function ClonePieces(cell: string): seq<string> {
    if cell == "" then [] else Split(cell, ',')
  }

  /** `node_to_clones` built from the lines after the header: every line with
      at least two fields maps its first field to the pieces of its second. */
  function NodeClones(lines: seq<string>): Dict<string, seq<string>>
    decreases |lines|
  {
    if lines == [] then Empty()
    else
      var d := NodeClones(lines[..|lines| - 1]);
      var parts := Fields(lines[|lines| - 1]);
      if |parts| < 2 then d else d.Put(parts[0], ClonePieces(parts[1]))
  }

  /** The first loop of `match_node_id_with_sv_and_save`: `next(file)`
      raises StopIteration on an empty file. */
  function ReadNodeClones(lines: seq<string>): Result<Dict<string, seq<string>>> {
    if lines == [] then Err(StopIteration) else Ok(NodeClones(lines[1..]))
  }

  /** A node name that survives being written and read back: not empty, no
      tab or newline, and no whitespace at either end. */
  predicate WritableNode(n: string) {
    n != [] && '\t' !in n && '\n' !in n && !IsSpace(n[0]) && !IsSpace(n[|n| - 1])
  }

  /** The nodes of `keys` whose list is not empty, in order. */
  function NonEmptyKeys(keys: seq<string>, items: map<string, seq<nat>>): seq<string>
    requires forall k :: k in keys ==> k in items
    decreases |keys|
  {
    if keys == [] then []
    else
      var k := keys[|keys| - 1];
      NonEmptyKeys(keys[..|keys| - 1], items) + (if items[k] != [] then [k] else [])
  }

  /** Every character of a clone list is a digit or a comma. */
  lemma {:induction false} CloneListChars(ids: seq<nat>)
    ensures forall i :: 0 <= i < |CloneList(ids)| ==> IsDigit(CloneList(ids)[i]) || CloneList(ids)[i] == ','
    decreases |ids|
  {
    if |ids| > 1 {
      CloneListChars(ids[1..]);
      assert Strings(ids)[1..] == Strings(ids[1..]);
      var h := NatToString(ids[0]);
      assert CloneList(ids) == h + "," + CloneList(ids[1..]);
    }
  }

  /** Reading a written node line gives back the node and, when the list is
      not empty, the clone IDs as strings; a line with an empty list strips
      down to a single field. */
  lemma MappingLineFields(node: string, ids: seq<nat>)
    requires WritableNode(node)
    ensures ids != [] ==> Fields(MappingLine(node, ids)) == [node, CloneList(ids)]
    ensures ids != [] ==> ClonePieces(CloneList(ids)) == Strings(ids)
    ensures ids == [] ==> Fields(MappingLine(node, ids)) == [node]
  {
    var list := CloneList(ids);
    CloneListChars(ids);
    assert '\t' !in list by {
      forall i | 0 <= i < |list| ensures list[i] != '\t' { }
    }
    if ids == [] {
      var s := node + "\t\n";
      assert MappingLine(node, ids) == s;
      assert TrimLeft(s) == s;
      assert s[..|s| - 1] == node + "\t";
      assert (node + "\t")[..|node|] == node;
      assert TrimRight(s) == TrimRight(node + "\t") == TrimRight(node) == node;
      SplitNoSeparator(node, '\t');
    } else {
      var body := node + "\t" + list;
      assert MappingLine(node, ids) == body + "\n";
      assert list != [];
      StripNewline(body);
      assert body == node + ['\t'] + list;
      SplitAfterPiece(node, list, '\t');
      SplitNoSeparator(list, '\t');
      forall i | 0 <= i < |Strings(ids)| ensures ',' !in Strings(ids)[i] { }
      SplitJoin(Strings(ids), ',');
    }
  }

  lemma NodeClonesSnoc(lines: seq<string>, x: string)
    ensures NodeClones(lines + [x]) ==
              var parts := Fields(x);
              if |parts| < 2 then NodeClones(lines) else NodeClones(lines).Put(parts[0], ClonePieces(parts[1]))
  {
    assert (lines + [x])[..|lines|] == lines;
  }

  /** Reading back what was saved for the keys `keys` (distinct, writable)
      gives a dictionary whose key order is that of the nodes with a
      non-empty list, each with its clone IDs as strings. */
  lemma {:induction false} ReadBackLines(keys: seq<string>, items: map<string, seq<nat>>)
    requires Distinct(keys) && forall k :: k in keys ==> k in items && WritableNode(k)
    ensures NodeClones(MappingLines(keys, items)).Valid()
    ensures NodeClones(MappingLines(keys, items)).keys == NonEmptyKeys(keys, items)
    ensures forall n :: n in NodeClones(MappingLines(keys, items)).items <==> n in keys && items[n] != []
    ensures forall n :: n in NodeClones(MappingLines(keys, items)).items ==>
              NodeClones(MappingLines(keys, items)).items[n] == Strings(items[n])
    decreases |keys|
  {
    if keys != [] {
      var init := keys[..|keys| - 1];
      var k := keys[|keys| - 1];
      assert keys == init + [k];
      assert Distinct(init);
      ReadBackLines(init, items);
      var before := NodeClones(MappingLines(init, items));
      NodeClonesSnoc(MappingLines(init, items), MappingLine(k, items[k]));
      MappingLineFields(k, items[k]);
      assert k !in init;
      if items[k] != [] {
        PutValid(before, k, ClonePieces(CloneList(items[k])));
      }
    }
  }

  /** Saving a mapping and reading the table back keeps every node with a
      non-empty list, in the same order, with its clone IDs as strings; a
      node with an empty list is dropped. */
  lemma SaveReadRoundTrip(d: Dict<string, seq<nat>>)
    requires d.Valid() && forall k :: k in d.keys ==> WritableNode(k)
    ensures ReadNodeClones(SavedMapping(d)).Ok?
    ensures ReadNodeClones(SavedMapping(d)).value.keys == NonEmptyKeys(d.keys, d.items)
    ensures forall n :: n in ReadNodeClones(SavedMapping(d)).value.items <==> n in d.items && d.items[n] != []
    ensures forall n :: n in ReadNodeClones(SavedMapping(d)).value.items ==>
              ReadNodeClones(SavedMapping(d)).value.items[n] == Strings(d.items[n])
  {
    assert SavedMapping(d)[1..] == MappingLines(d.keys, d.items);
    ReadBackLines(d.keys, d.items);
  }

  // ---------------------------------------------------------------------
  // The SV file and the matches (match_node_id_with_sv_and_save, lines 126-147)

  /** `parts[1].split("-")` unpacked into two positions when it has exactly
      two pieces, otherwise the whole cell and "". */
  function SvPositions(cell: string): (string, string) {
    var ps := Split(cell, '-');
    if |ps| == 2 then (ps[0], ps[1]) else (cell, "")
  }

  /** A cell with exactly one '-' is split there; any other cell is kept
      whole with an empty second position. */
  lemma SvPositionsSpec(cell: string)
    ensures multiset(cell)['-'] == 1 ==>
              var (p1, p2) := SvPositions(cell);
              p1 + "-" + p2 == cell && '-' !in p1 && '-' !in p2
    ensures multiset(cell)['-'] != 1 ==> SvPositions(cell) == (cell, "")
  {
    SplitCount(cell, '-');
    if multiset(cell)['-'] == 1 {
      JoinSplit(cell, '-');
      SplitPiecesLackSeparator(cell, '-');
      var ps := Split(cell, '-');
      assert Join(ps, "-") == ps[0] + "-" + Join(ps[1..], "-");
    }
  }

  /** `sv_details` built from the lines after the header: each line's first
      field mapped to its positions; `parts[1]` raises IndexError on a line
      with a single field (a blank line included). */
  function SvDetails(lines: seq<string>): Result<map<string, (string, string)>>
    decreases |lines|
  {
    if lines == [] then Ok(map[])
    else
      var m :- SvDetails(lines[..|lines| - 1]);
      var parts := Fields(lines[|lines| - 1]);
      if |parts| < 2 then Err(IndexError) else Ok(m[parts[0] := SvPositions(parts[1])])
  }

  /** An SV file whose every data line has at least two fields is read
      without error, and the ids read are the lines' first fields (the
      positions of each are those of its last line, `SvDetailsLast`). */
  lemma {:induction false} SvDetailsSpec(lines: seq<string>)
    ensures SvDetails(lines).Ok? <==> forall i :: 0 <= i < |lines| ==> |Fields(lines[i])| >= 2
    ensures SvDetails(lines).Err? ==> SvDetails(lines).error == IndexError
    ensures SvDetails(lines).Ok? ==>
              forall id :: id in SvDetails(lines).value <==>
                exists i :: 0 <= i < |lines| && Fields(lines[i])[0] == id
    decreases |lines|
  {
    if lines != [] {
      var init := lines[..|lines| - 1];
      SvDetailsSpec(init);
      assert forall i :: 0 <= i < |init| ==> init[i] == lines[i];
      if SvDetails(lines).Ok? {
        forall id ensures id in SvDetails(lines).value <==> exists i :: 0 <= i < |lines| && Fields(lines[i])[0] == id {
          if exists i :: 0 <= i < |lines| && Fields(lines[i])[0] == id {
            var i :| 0 <= i < |lines| && Fields(lines[i])[0] == id;
            if i < |init| {
              assert Fields(init[i])[0] == id;
            }
          }
        }
      }
    }
  }

  /** Each SV id read holds the positions of the last line that names it. */
  lemma {:induction false} SvDetailsLast(lines: seq<string>, id: string)
    requires SvDetails(lines).Ok? && id in SvDetails(lines).value
    ensures exists i :: 0 <= i < |lines| && |Fields(lines[i])| >= 2 && Fields(lines[i])[0] == id &&
              SvDetails(lines).value[id] == SvPositions(Fields(lines[i])[1]) &&
              forall j :: i < j < |lines| ==> Fields(lines[j])[0] != id
    decreases |lines|
  {
    var n := |lines| - 1;
    var init := lines[..n];
    var parts := Fields(lines[n]);
    if parts[0] != id {
      SvDetailsLast(init, id);
      var i :| 0 <= i < |init| && |Fields(init[i])| >= 2 && Fields(init[i])[0] == id &&
                SvDetails(init).value[id] == SvPositions(Fields(init[i])[1]) &&
                forall j :: i < j < |init| ==> Fields(init[j])[0] != id;
      assert forall j :: i < j < |lines| ==> Fields(lines[j])[0] != id by {
        forall j | i < j < |lines| ensures Fields(lines[j])[0] != id {
          if j < n {
            assert lines[j] == init[j];
          }
        }
      }
      assert lines[i] == init[i];
    }
  }

  /** The clones of `clones` that are known SV ids, in order. */
  function Known(clones: seq<string>, sv: map<string, (string, string)>): seq<string>
    decreases |clones|
  {
    if clones == [] then []
    else
      var c := clones[|clones| - 1];
      Known(clones[..|clones| - 1], sv) + (if c in sv then [c] else [])
  }

  lemma {:induction false} KnownSpec(clones: seq<string>, sv: map<string, (string, string)>)
    ensures forall c :: c in Known(clones, sv) ==> c in sv
    ensures forall c :: multiset(Known(clones, sv))[c] == if c in sv then multiset(clones)[c] else 0
    decreases |clones|
  {
    if clones != [] {
      var init := clones[..|clones| - 1];
      KnownSpec(init, sv);
      assert clones == init + [clones[|clones| - 1]];
    }
  }

  /** The row written for a node and one of its clones. */
  function MatchRow(node: string, clone: string, sv: map<string, (string, string)>): string
    requires clone in sv
  {
    node + "\t" + clone + "\t" + sv[clone].0 + "\t" + sv[clone].1 + "\n"
  }

  /** The rows of one node: one per known clone, in the node's order. */
  function NodeRows(node: string, clones: seq<string>, sv: map<string, (string, string)>): (r: seq<string>)
    ensures |r| == |Known(clones, sv)|
    ensures forall i :: 0 <= i < |r| ==> Known(clones, sv)[i] in sv && r[i] == MatchRow(node, Known(clones, sv)[i], sv)
    decreases |clones|
  {
    if clones == [] then []
    else
      var c := clones[|clones| - 1];
      NodeRows(node, clones[..|clones| - 1], sv) + (if c in sv then [MatchRow(node, c, sv)] else [])
  }

  /** The rows of all nodes, node by node in the dictionary's order. */
  function MatchRows(keys: seq<string>, items: map<string, seq<string>>, sv: map<string, (string, string)>): seq<string>
    requires forall k :: k in keys ==> k in items
    decreases |keys|
  {
    if keys == [] then []
    else
      var k := keys[|keys| - 1];
      MatchRows(keys[..|keys| - 1], items, sv) + NodeRows(k, items[k], sv)
  }

  const MatchHeader: string := "Node_ID\tClone_ID\tPosition_1\tPosition_2\n"

  /** What `match_node_id_with_sv_and_save` leaves in the matches file for
      the node table `tsv` and the SV file `svLines`: nothing when either
      file is empty (`next` raises StopIteration) or the SV file has a
      single-field line, otherwise the header and every match row. */
  function MatchOutput(tsv: seq<string>, svLines: seq<string>): Written {
    if tsv == [] || svLines == [] then Written([], Some(StopIteration))
    else
      var d := NodeClones(tsv[1..]);
      match SvDetails(svLines[1..])
      case Err(e) => Written([], Some(e))
      case Ok(sv) =>
        NodeClonesValid(tsv[1..]);
        Written([MatchHeader] + MatchRows(d.keys, d.items, sv), None)
  }

  lemma {:induction false} NodeClonesValid(lines: seq<string>)
    ensures NodeClones(lines).Valid()
    decreases |lines|
  {
    if lines != [] {
      var parts := Fields(lines[|lines| - 1]);
      NodeClonesValid(lines[..|lines| - 1]);
      if |parts| >= 2 {
        PutValid(NodeClones(lines[..|lines| - 1]), parts[0], ClonePieces(parts[1]));
      }
    }
  }

  /** The node-table loop (lines 116-124). */
  method ReadNodeTable(lines: seq<string>) returns (d: Dict<string, seq<string>>)
    ensures d == NodeClones(lines)
  {
    d := Empty();
    for i := 0 to |lines|
      invariant d == NodeClones(lines[..i])
    {
      assert lines[..i + 1][..i] == lines[..i];
      var parts := Fields(lines[i]);
      if |parts| < 2 {
        continue;
      }
      var clones := if parts[1] != "" then Split(parts[1], ',') else [];
      d := d.Put(parts[0], clones);
    }
    assert lines[..|lines|] == lines;
  }

  /** The SV loop (lines 127-137). */
  method ReadSvDetails(lines: seq<string>) returns (r: Result<map<string, (string, string)>>)
    ensures r == SvDetails(lines)
  {
    var sv: map<string, (string, string)> := map[];
    for i := 0 to |lines|
      invariant SvDetails(lines[..i]) == Ok(sv)
    {
      assert lines[..i + 1][..i] == lines[..i];
      var parts := Fields(lines[i]);
      if |parts| < 2 {
        SvDetailsSticky(lines, i + 1);
        return Err(IndexError);
      }
      var positions := Split(parts[1], '-');
      var p1, p2;
      if |positions| == 2 {
        p1, p2 := positions[0], positions[1];
      } else {
        p1, p2 := parts[1], "";
      }
      sv := sv[parts[0] := (p1, p2)];
    }
    assert lines[..|lines|] == lines;
    r := Ok(sv);
  }

  lemma {:induction false} SvDetailsSticky(lines: seq<string>, k: nat)
    requires k <= |lines| && SvDetails(lines[..k]).Err?
    ensures SvDetails(lines) == SvDetails(lines[..k])
    decreases |lines|
  {
    if k == |lines| {
      assert lines[..k] == lines;
    } else {
      var init := lines[..|lines| - 1];
      assert init[..k] == lines[..k];
      SvDetailsSticky(init, k);
    }
  }

  /** The inner loop of lines 142-147: the rows of one node. */
  method WriteNodeRows(node: string, clones: seq<string>, sv: map<string, (string, string)>) returns (rows: seq<string>)
    ensures rows == NodeRows(node, clones, sv)
  {
    rows := [];
    for i := 0 to |clones|
      invariant rows == NodeRows(node, clones[..i], sv)
    {
      var c := clones[i];
      assert clones[..i + 1][..i] == clones[..i];
      if c in sv {
        var (p1, p2) := sv[c];
        rows := rows + [node + "\t" + c + "\t" + p1 + "\t" + p2 + "\n"];
      }
    }
    assert clones[..|clones|] == clones;
  }

  /** The outer loop of lines 140-147: the rows of every node in order. */
  method WriteMatchRows(keys: seq<string>, items: map<string, seq<string>>, sv: map<string, (string, string)>)
    returns (rows: seq<string>)
    requires forall k :: k in keys ==> k in items
    ensures rows == MatchRows(keys, items, sv)
  {
    rows := [];
    for i := 0 to |keys|
      invariant rows == MatchRows(keys[..i], items, sv)
    {
      var node := keys[i];
      assert keys[..i + 1][..i] == keys[..i];
      var more := WriteNodeRows(node, items[node], sv);
      rows := rows + more;
    }
    assert keys[..|keys|] == keys;
  }

  /** `match_node_id_with_sv_and_save` (lines 114-149). */
  method MatchNodeIdWithSvAndSave(tsv: seq<string>, svLines: seq<string>) returns (w: Written)
    ensures w == MatchOutput(tsv, svLines)
  {
    if tsv == [] {
      return Written([], Some(StopIteration));
    }
    var d := ReadNodeTable(tsv[1..]);
    if svLines == [] {
      return Written([], Some(StopIteration));
    }
    var sv := ReadSvDetails(svLines[1..]);
    if sv.Err? {
      return Written([], Some(sv.error));
    }
    NodeClonesValid(tsv[1..]);
    var rows := WriteMatchRows(d.keys, d.items, sv.value);
    var out := [MatchHeader] + rows;
    w := Written(out, None);
  }
}
