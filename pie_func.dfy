/** plot_scripts/pie_func.py: which named colours count as dark, the
    cyclic assignment of dark colours to mutational signatures, and the
    signature list of the control file.  The colour table (matplotlib's
    CSS4_COLORS) is a parameter: its names in dictionary order with their
    "#rrggbb" values. */
module PieFunc {
  import opened Wrappers
  import opened Text
  import opened Dicts

  // ---------------------------------------------------------------------
  // int(s, 16)

  predicate IsHexDigit(c: char) {
    '0' <= c <= '9' || 'a' <= c <= 'f' || 'A' <= c <= 'F'
  }

  predicate IsHexDigits(s: string) {
    |s| > 0 && forall i :: 0 <= i < |s| ==> IsHexDigit(s[i])
  }

  function HexDigitValue(c: char): nat {
    if '0' <= c <= '9' then c as int - '0' as int
    else if 'a' <= c <= 'f' then c as int - 'a' as int + 10
    else if 'A' <= c <= 'F' then c as int - 'A' as int + 10
    else 0
  }

  /** The value of a string of hexadecimal digits. */
  function HexValue(s: string): nat
    decreases |s|
  {
    if s == [] then 0 else HexValue(s[..|s| - 1]) * 16 + HexDigitValue(s[|s| - 1])
  }

  /** The digits after an optional "0x" or "0X" prefix. */
  function HexMagnitude(d: string): Option<nat> {
    if |d| >= 2 && d[0] == '0' && (d[1] == 'x' || d[1] == 'X') && IsHexDigits(d[2..]) then Some(HexValue(d[2..]))
    else if IsHexDigits(d) then Some(HexValue(d))
    else None
  }

  /** `int(s, 16)` for ASCII text without underscores: surrounding
      whitespace, an optional sign, an optional "0x" prefix, then hex
      digits; None where Python raises ValueError. */
  function ParseHex(s: string): Option<int> {
    var t := Strip(s);
    if |t| > 0 && (t[0] == '-' || t[0] == '+') then
      match HexMagnitude(t[1..])
      case None => None
      case Some(v) =>
        var x: int := v;
        Some(if t[0] == '-' then -x else x)
    else
      match HexMagnitude(t)
      case None => None
      case Some(v) => Some(v)
  }

  /** `s[a:b]` for 0 <= a <= b: Python clamps both ends to the length. */
  function Slice(s: string, a: nat, b: nat): (r: string)
    requires a <= b
    ensures |r| <= b - a
  {
    if |s| <= a then [] else if |s| <= b then s[a..] else s[a..b]
  }

  // ---------------------------------------------------------------------
  // is_color_dark (lines 14-17)

  /** `0.299 * r + 0.587 * g + 0.114 * b` */
  function Brightness(r: int, g: int, b: int): real {
    0.299 * (r as real) + 0.587 * (g as real) + 0.114 * (b as real)
  }

  /** `is_color_dark`: the channels are characters 1-2, 3-4 and 5-6 read
      in base 16, and the colour is dark when its brightness is below 128;
      ValueError when a channel is not a number. */
  function IsColorDark(rgb: string): (r: Result<bool>)
    ensures r.Err? <==> ParseHex(Slice(rgb, 1, 3)).None? || ParseHex(Slice(rgb, 3, 5)).None? || ParseHex(Slice(rgb, 5, 7)).None?
    ensures r.Err? ==> r.error == ValueError
  {
    match (ParseHex(Slice(rgb, 1, 3)), ParseHex(Slice(rgb, 3, 5)), ParseHex(Slice(rgb, 5, 7)))
    case (Some(red), Some(green), Some(blue)) => Ok(Brightness(red, green, blue) < 128.0)
    case _ => Err(ValueError)
  }

  /** The lower-case hex digit of a value below 16. */
  function HexDigit(d: nat): (c: char)
    requires d < 16
    ensures IsHexDigit(c) && HexDigitValue(c) == d
  {
    if d < 10 then ('0' as int + d) as char else ('a' as int + d - 10) as char
  }

  /** Two lower-case hex digits for a channel value, as in "#rrggbb". */
  function HexByte(n: nat): (r: string)
    requires n < 256
    ensures |r| == 2 && IsHexDigits(r)
  {
    [HexDigit(n / 16), HexDigit(n % 16)]
  }

  /** `"#%02x%02x%02x" % (r, g, b)` */
  function Hex(r: nat, g: nat, b: nat): string
    requires r < 256 && g < 256 && b < 256
  {
    "#" + HexByte(r) + HexByte(g) + HexByte(b)
  }

  /** Reading a channel back gives its value. */
  lemma ParseHexByte(n: nat)
    requires n < 256
    ensures ParseHex(HexByte(n)) == Some(n)
  {
    var s := HexByte(n);
    StripNoEnds(s);
    assert s[..1] == [s[0]] && s[..1][..0] == [];
    assert HexValue(s[..1]) == n / 16;
    assert HexValue(s) == n / 16 * 16 + n % 16;
  }

  /** For a "#rrggbb" colour, `is_color_dark` compares the brightness of
      its three channels with 128. */
  lemma IsColorDarkHex(r: nat, g: nat, b: nat)
    requires r < 256 && g < 256 && b < 256
    ensures IsColorDark(Hex(r, g, b)) == Ok(Brightness(r, g, b) < 128.0)
  {
    var h := Hex(r, g, b);
    assert Slice(h, 1, 3) == HexByte(r);
    assert Slice(h, 3, 5) == HexByte(g);
    assert Slice(h, 5, 7) == HexByte(b);
    ParseHexByte(r);
    ParseHexByte(g);
    ParseHexByte(b);
  }

  /** Black is dark and white is not; darkening a channel keeps a dark
      colour dark. */
  lemma DarknessOrder(r: nat, g: nat, b: nat, r': nat, g': nat, b': nat)
    requires r' <= r < 256 && g' <= g < 256 && b' <= b < 256
    ensures IsColorDark(Hex(0, 0, 0)) == Ok(true) && IsColorDark(Hex(255, 255, 255)) == Ok(false)
    ensures IsColorDark(Hex(r, g, b)) == Ok(true) ==> IsColorDark(Hex(r', g', b')) == Ok(true)
  {
    IsColorDarkHex(0, 0, 0);
    IsColorDarkHex(255, 255, 255);
    IsColorDarkHex(r, g, b);
    IsColorDarkHex(r', g', b');
  }

  // ---------------------------------------------------------------------
  // generate_color_map (lines 20-35)

  /** The name filter of `dark_colors` (lines 25-28). */
  predicate Keep(name: string) {
    !Contains(name, "light") && !Contains(name, "white") && !Contains(name, "gray") && name != "black"
  }

  /** Each table entry's name with the verdict of `is_color_dark` on its
      value. */
  function Judged(colors: seq<(string, string)>): (r: seq<(string, Result<bool>)>)
    ensures |r| == |colors| && forall i :: 0 <= i < |colors| ==> r[i] == (colors[i].0, IsColorDark(colors[i].1))
  {
    seq(|colors|, i requires 0 <= i < |colors| => (colors[i].0, IsColorDark(colors[i].1)))
  }

  /** The comprehension over judged entries, in table order: the first
      failed verdict raises, and a name is kept when it is dark and passes
      the name tests.  The verdict comes first, so a malformed value raises
      whatever its name. */
  function DarkNames(entries: seq<(string, Result<bool>)>): Result<seq<string>>
    decreases |entries|
  {
    if entries == [] then Ok([])
    else
      var kept :- DarkNames(entries[..|entries| - 1]);
      var entry := entries[|entries| - 1];
      var dark :- entry.1;
      Ok(kept + (if dark && Keep(entry.0) then [entry.0] else []))
  }

  /** `dark_colors` (lines 21-29). */
  function DarkColors(colors: seq<(string, string)>): Result<seq<string>> {
    DarkNames(Judged(colors))
  }

  /** Entry `i` is dark and its name passes the filter. */
  predicate DarkEntry(entries: seq<(string, Result<bool>)>, i: int) {
    0 <= i < |entries| && entries[i].1 == Ok(true) && Keep(entries[i].0)
  }

  /** The filter fails exactly when some verdict failed, with the error of
      a failed verdict. */
  lemma {:induction false} DarkNamesOk(entries: seq<(string, Result<bool>)>)
    ensures DarkNames(entries).Ok? <==> forall i :: 0 <= i < |entries| ==> entries[i].1.Ok?
    ensures DarkNames(entries).Err? ==> exists i :: 0 <= i < |entries| && entries[i].1 == Err(DarkNames(entries).error)
    decreases |entries|
  {
    if entries != [] {
      var n := |entries| - 1;
      var init := entries[..n];
      DarkNamesOk(init);
      assert forall i :: 0 <= i < n ==> init[i] == entries[i];
    }
  }

  /** The last entry adds its name exactly when it is a dark entry. */
  lemma DarkNamesLast(entries: seq<(string, Result<bool>)>)
    requires entries != [] && DarkNames(entries).Ok?
    ensures DarkNames(entries[..|entries| - 1]).Ok?
    ensures DarkNames(entries).value ==
              DarkNames(entries[..|entries| - 1]).value +
                (if DarkEntry(entries, |entries| - 1) then [entries[|entries| - 1].0] else [])
  {
  }

  /** When the filter succeeds, it keeps exactly the names of the dark
      entries that pass the name tests. */
  lemma {:induction false} DarkNamesSpec(entries: seq<(string, Result<bool>)>)
    requires DarkNames(entries).Ok?
    ensures forall name :: name in DarkNames(entries).value <==> exists i :: DarkEntry(entries, i) && entries[i].0 == name
    decreases |entries|
  {
    if entries != [] {
      var n := |entries| - 1;
      var init := entries[..n];
      DarkNamesLast(entries);
      DarkNamesSpec(init);
      forall name ensures name in DarkNames(entries).value <==> exists i :: DarkEntry(entries, i) && entries[i].0 == name {
        if exists i :: DarkEntry(entries, i) && entries[i].0 == name {
          var i :| DarkEntry(entries, i) && entries[i].0 == name;
          if i < n {
            assert init[i] == entries[i];
            assert DarkEntry(init, i);
          }
        }
        if exists i :: DarkEntry(init, i) && init[i].0 == name {
          var i :| DarkEntry(init, i) && init[i].0 == name;
          assert init[i] == entries[i];
          assert DarkEntry(entries, i);
        }
      }
    }
  }

  /** Distinct names give distinct dark colours. */
  lemma {:induction false} DarkNamesDistinct(entries: seq<(string, Result<bool>)>)
    requires forall i, j :: 0 <= i < j < |entries| ==> entries[i].0 != entries[j].0
    ensures DarkNames(entries).Ok? ==> Distinct(DarkNames(entries).value)
    decreases |entries|
  {
    if entries != [] && DarkNames(entries).Ok? {
      var n := |entries| - 1;
      var init := entries[..n];
      DarkNamesLast(entries);
      DarkNamesDistinct(init);
      DarkNamesSpec(init);
      forall i | DarkEntry(init, i) ensures init[i].0 != entries[n].0 {
        assert init[i] == entries[i];
      }
      DistinctAppend(DarkNames(init).value, entries[n].0);
    }
  }

  /** `dark_colors` fails, with ValueError, exactly when some value of the
      table is malformed; otherwise it holds exactly the names of the dark
      entries that pass the name tests, and no name twice, since the table's
      names are dictionary keys. */
  lemma DarkColorsSpec(colors: seq<(string, string)>)
    requires forall i, j :: 0 <= i < j < |colors| ==> colors[i].0 != colors[j].0
    ensures DarkColors(colors).Ok? <==> forall i :: 0 <= i < |colors| ==> IsColorDark(colors[i].1).Ok?
    ensures DarkColors(colors).Err? ==> DarkColors(colors).error == ValueError
    ensures DarkColors(colors).Ok? ==>
              (forall name :: name in DarkColors(colors).value <==>
                 exists i :: 0 <= i < |colors| && colors[i].0 == name && IsColorDark(colors[i].1) == Ok(true) && Keep(name)) &&
              Distinct(DarkColors(colors).value)
  {
    var entries := Judged(colors);
    DarkNamesOk(entries);
    if DarkColors(colors).Ok? {
      DarkNamesSpec(entries);
      DarkNamesDistinct(entries);
    }
  }


  /** The pairs of the dictionary comprehension (lines 31-34): signature
      `i` with dark colour `i mod len(dark_colors)`. */
  function ColorPairs(signatures: seq<string>, dark: seq<string>): (r: seq<(string, string)>)
    requires |dark| > 0
    ensures |r| == |signatures| && forall i :: 0 <= i < |r| ==> r[i] == (signatures[i], dark[i % |dark|])
  {
    seq(|signatures|, i requires 0 <= i < |signatures| => (signatures[i], dark[i % |dark|]))
  }

  /** `generate_color_map`; `i % len(dark_colors)` raises ZeroDivisionError
      when no colour is dark and there is a signature to colour. */
  function GenerateColorMap(signatures: seq<string>, colors: seq<(string, string)>): Result<map<string, string>> {
    var dark :- DarkColors(colors);
    if signatures == [] then Ok(map[])
    else if dark == [] then Err(ZeroDivisionError)
    else Ok(ToMap(ColorPairs(signatures, dark)))
  }

  /** The map fails exactly when the table is malformed or has no dark
      colour for a non-empty signature list.  Otherwise its keys are the
      signatures, and each signature has the colour of the index of its last
      occurrence taken cyclically, which is a dark colour. */
  lemma ColorMapSpec(signatures: seq<string>, colors: seq<(string, string)>)
    ensures GenerateColorMap(signatures, colors).Err? <==>
              DarkColors(colors).Err? || (signatures != [] && DarkColors(colors).value == [])
    ensures GenerateColorMap(signatures, colors).Ok? ==>
              var m := GenerateColorMap(signatures, colors).value;
              var dark := DarkColors(colors).value;
              (forall s :: s in m <==> s in signatures) &&
              (forall s :: s in m ==> m[s] in dark) &&
              (forall s :: s in m ==> exists i :: 0 <= i < |signatures| && signatures[i] == s &&
                                        m[s] == dark[i % |dark|] &&
                                        forall j :: i < j < |signatures| ==> signatures[j] != s)
  {
    if GenerateColorMap(signatures, colors).Ok? && signatures != [] {
      var dark := DarkColors(colors).value;
      var pairs := ColorPairs(signatures, dark);
      forall s ensures s in ToMap(pairs) <==> s in signatures {
        ToMapLast(pairs, s);
        if s in signatures {
          var i :| 0 <= i < |signatures| && signatures[i] == s;
          assert pairs[i].0 == s;
        }
      }
      forall s | s in ToMap(pairs)
        ensures exists i :: 0 <= i < |signatures| && signatures[i] == s && ToMap(pairs)[s] == dark[i % |dark|] &&
                            forall j :: i < j < |signatures| ==> signatures[j] != s
      {
        var i := ColorIndex(signatures, dark, s);
      }
    }
  }

  /** The index whose colour a signature keeps: its last occurrence. */
  lemma ColorIndex(signatures: seq<string>, dark: seq<string>, s: string) returns (i: nat)
    requires |dark| > 0 && s in ToMap(ColorPairs(signatures, dark))
    ensures i < |signatures| && signatures[i] == s && ToMap(ColorPairs(signatures, dark))[s] == dark[i % |dark|]
    ensures forall j :: i < j < |signatures| ==> signatures[j] != s
  {
    var pairs := ColorPairs(signatures, dark);
    ToMapLast(pairs, s);
    i :| 0 <= i < |pairs| && pairs[i].0 == s && ToMap(pairs)[s] == pairs[i].1 &&
         forall j :: i < j < |pairs| ==> pairs[j].0 != s;
    assert forall j :: i < j < |signatures| ==> signatures[j] == pairs[j].0;
  }

  /** With no more distinct signatures than distinct dark colours, no two
      signatures share a colour. */
  lemma ColorMapInjective(signatures: seq<string>, colors: seq<(string, string)>)
    requires forall i, j :: 0 <= i < j < |colors| ==> colors[i].0 != colors[j].0
    requires Distinct(signatures)
    requires GenerateColorMap(signatures, colors).Ok?
    requires |signatures| <= |DarkColors(colors).value|
    ensures var m := GenerateColorMap(signatures, colors).value;
            forall s, t :: s in m && t in m && s != t ==> m[s] != m[t]
  {
    DarkColorsSpec(colors);
    if signatures != [] {
      var dark := DarkColors(colors).value;
      assert GenerateColorMap(signatures, colors).value == ToMap(ColorPairs(signatures, dark));
      CyclicInjective(signatures, dark);
    }
  }

  lemma ModBelow(i: nat, n: nat)
    requires i < n
    ensures i % n == i
  {
  }

  /** The cyclic assignment gives distinct signatures distinct colours when
      there are enough distinct colours. */
  lemma CyclicInjective(signatures: seq<string>, dark: seq<string>)
    requires Distinct(signatures) && Distinct(dark) && 0 < |signatures| <= |dark|
    ensures var m := ToMap(ColorPairs(signatures, dark));
            forall s, t :: s in m && t in m && s != t ==> m[s] != m[t]
  {
    var m := ToMap(ColorPairs(signatures, dark));
    forall s, t | s in m && t in m && s != t ensures m[s] != m[t] {
      var i := ColorIndex(signatures, dark, s);
      var j := ColorIndex(signatures, dark, t);
      ModBelow(i, |dark|);
      ModBelow(j, |dark|);
      if i < j {
        assert dark[i] != dark[j];
      } else {
        assert j < i;
        assert dark[j] != dark[i];
      }
    }
  }

  // ---------------------------------------------------------------------
  // read_signatures_from_control_file (lines 38-46)

  /** The line whose first tab field is "Signature List". */
  predicate IsSignatureLine(line: string) {
    Fields(line)[0] == "Signature List"
  }

  /** What the first signature line yields: its second field split on
      ','; IndexError when it has no second field. */
  function SignatureResult(line: string): Result<seq<string>> {
    var parts := Fields(line);
    if |parts| < 2 then Err(IndexError) else Ok(Split(parts[1], ','))
  }

  /** `read_signatures_from_control_file`: the result of the first
      signature line; [] when there is no such line. */
  function ReadSignatures(lines: seq<string>): Result<seq<string>>
    decreases |lines|
  {
    if lines == [] then Ok([])
    else if IsSignatureLine(lines[0]) then SignatureResult(lines[0])
    else ReadSignatures(lines[1..])
  }

  /** Without a signature line the result is []. */
  lemma {:induction false} ReadSignaturesNone(lines: seq<string>)
    requires forall i :: 0 <= i < |lines| ==> !IsSignatureLine(lines[i])
    ensures ReadSignatures(lines) == Ok([])
    decreases |lines|
  {
    if lines != [] {
      assert forall i :: 0 <= i < |lines| - 1 ==> lines[1..][i] == lines[i + 1];
      ReadSignaturesNone(lines[1..]);
    }
  }

  /** The first signature line decides the result; the lines after it are
      never read. */
  lemma {:induction false} ReadSignaturesFirst(lines: seq<string>, k: nat)
    requires k < |lines| && IsSignatureLine(lines[k])
    requires forall i :: 0 <= i < k ==> !IsSignatureLine(lines[i])
    ensures ReadSignatures(lines) == SignatureResult(lines[k])
    decreases k
  {
    if k > 0 {
      assert lines[1..][k - 1] == lines[k];
      assert forall i :: 0 <= i < k - 1 ==> lines[1..][i] == lines[i + 1];
      ReadSignaturesFirst(lines[1..], k - 1);
    }
  }

  /** A signature name as the control file lists it: non-empty, without
      whitespace, tabs or commas. */
  predicate PlainName(s: string) {
    |s| > 0 && forall k :: 0 <= k < |s| ==> !IsSpace(s[k]) && s[k] != ','
  }

  /** Joining plain names with commas gives a string without whitespace. */
  lemma {:induction false} JoinPlain(names: seq<string>)
    requires |names| >= 1 && forall i :: 0 <= i < |names| ==> PlainName(names[i])
    ensures var j := Join(names, ",");
            |j| > 0 && forall k :: 0 <= k < |j| ==> !IsSpace(j[k])
    decreases |names|
  {
    if |names| > 1 {
      JoinPlain(names[1..]);
      var rest := Join(names[1..], ",");
      assert Join(names, ",") == names[0] + "," + rest;
      assert forall k :: 0 <= k < |names[0]| ==> !IsSpace(names[0][k]);
    }
  }

  /** Writing the signatures as a control line and reading the file back
      gives the signatures, whatever lines come after it. */
  lemma SignatureLineRoundTrip(names: seq<string>, rest: seq<string>)
    requires |names| >= 1 && forall i :: 0 <= i < |names| ==> PlainName(names[i])
    ensures ReadSignatures(["Signature List\t" + Join(names, ",") + "\n"] + rest) == Ok(names)
  {
    var file := ["Signature List\t" + Join(names, ",") + "\n"] + rest;
    var j := Join(names, ",");
    JoinPlain(names);
    var line := "Signature List\t" + j;
    assert line[0] == 'S' && line[|line| - 1] == j[|j| - 1];
    StripNewline(line);
    assert '\t' !in j by {
      assert forall k :: 0 <= k < |j| ==> j[k] != '\t';
    }
    SplitAfterPiece("Signature List", j, '\t');
    assert line == "Signature List" + ['\t'] + j;
    SplitNoSeparator(j, '\t');
    assert Fields(line + "\n") == ["Signature List", j];
    SplitJoin(names, ',');
  }
}
