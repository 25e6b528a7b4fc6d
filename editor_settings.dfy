/** EditorSettings.h: settings kept as section -> key -> value strings, a dirty flag, and an
    INI-style text form. The static members become one Settings object; the settings file is
    the text a Load reads (None when it cannot be opened) and the `disk` map Save writes. */
module EditorSettings {
  import opened Wrappers
  import opened SettingsText

  type Section = map<string, string>
  type Data = map<string, Section>

  /** The section of that name, or the empty one operator[] would insert. */
  function SectionOf(data: Data, section: string): Section {
    if section in data then data[section] else map[]
  }

  /** `data[section][key] = value`, creating the section when missing. */
  function Put(data: Data, section: string, key: string, value: string): (r: Data)
    ensures r.Keys == data.Keys + {section}
  {
    data[section := SectionOf(data, section)[key := value]]
  }

  /** A second write to the same entry replaces the first. */
  lemma PutTwice(data: Data, section: string, key: string, a: string, b: string)
    ensures Put(Put(data, section, key, a), section, key, b) == Put(data, section, key, b)
  {
    var sec := SectionOf(data, section);
    assert SectionOf(Put(data, section, key, a), section) == sec[key := a];
    assert sec[key := a][key := b] == sec[key := b];
  }

  /** The value stored under section and key, if any. */
  function Lookup(data: Data, section: string, key: string): Option<string> {
    if section in data && key in data[section] then Some(data[section][key]) else None
  }

  /** Writing a value makes it the one stored there and changes no other entry. */
  lemma LookupPut(data: Data, section: string, key: string, value: string, s: string, k: string)
    ensures Lookup(Put(data, section, key, value), section, key) == Some(value)
    ensures s != section || k != key ==> Lookup(Put(data, section, key, value), s, k) == Lookup(data, s, k)
  {
  }

  /** EditorSettings::Has: whether the section holds the key. */
  function Has(data: Data, section: string, key: string): bool {
    if section !in data then false else key in data[section]
  }

  /** EditorSettings::GetString: the stored value, or the default when the section or the key
      is missing. */
  function GetString(data: Data, section: string, key: string, defaultValue: string): string {
    if section !in data then defaultValue
    else if key !in data[section] then defaultValue
    else data[section][key]
  }

  /** After a write the key is present, and no other key appears or disappears. */
  lemma HasPut(data: Data, section: string, key: string, value: string, s: string, k: string)
    ensures Has(Put(data, section, key, value), s, k) <==> Has(data, s, k) || (s == section && k == key)
  {
  }

  /** After a write GetString reads the written value whatever the default, and every other
      key reads as before. */
  lemma GetStringPut(data: Data, section: string, key: string, value: string, s: string, k: string, d: string)
    ensures GetString(Put(data, section, key, value), section, key, d) == value
    ensures s != section || k != key ==> GetString(Put(data, section, key, value), s, k, d) == GetString(data, s, k, d)
  {
  }

  /** EditorSettings::GetInt: std::stoi of the stored string (empty when missing); the default
      when stoi throws. */
  function GetInt(data: Data, section: string, key: string, defaultValue: Int32): Int32 {
    match Stoi(GetString(data, section, key, ""))
    case Some(v) => v
    case None => defaultValue
  }

  /** EditorSettings::GetBool: the default for a missing or empty value, otherwise whether the
      lower-cased value is "true" or "1". */
  function GetBool(data: Data, section: string, key: string, defaultValue: bool): bool {
    var value := GetString(data, section, key, "");
    if value == [] then defaultValue
    else
      var lower := ToLower(value);
      lower == "true" || lower == "1"
  }

  /** The text SetBool stores. */
  function BoolText(value: bool): string {
    if value then "true" else "false"
  }

  /** What SetInt stores reads back through GetInt as the same int, whatever the default. */
  lemma GetIntAfterSetInt(data: Data, section: string, key: string, value: Int32, defaultValue: Int32)
    ensures GetInt(Put(data, section, key, IntToString(value)), section, key, defaultValue) == value
  {
    StoiOfIntToString(value);
  }

  /** What SetBool stores reads back through GetBool as the same bool, whatever the default. */
  lemma GetBoolAfterSetBool(data: Data, section: string, key: string, value: bool, defaultValue: bool)
    ensures GetBool(Put(data, section, key, BoolText(value)), section, key, defaultValue) == value
  {
    var d := Put(data, section, key, BoolText(value));
    assert GetString(d, section, key, "") == BoolText(value);
    if value {
      assert ToLower("true") == "true";
    } else {
      assert ToLower("false") == "false";
      assert ToLower("false") != "true" && ToLower("false") != "1";
    }
  }

  /** GetBool ignores case, and any other non-empty value is false, not the default. */
  lemma GetBoolExamples(data: Data, section: string, key: string, defaultValue: bool)
    ensures GetBool(Put(data, section, key, "TRUE"), section, key, defaultValue)
    ensures GetBool(Put(data, section, key, "1"), section, key, defaultValue)
    ensures !GetBool(Put(data, section, key, "yes"), section, key, true)
  {
    assert ToLower("TRUE") == "true";
    assert ToLower("yes") == "yes";
    assert ToLower("1") == "1";
  }

  /** The state of Load's loop: the current section and the pairs read so far. */
  datatype ParseState = ParseState(section: string, data: Data)

  /** One line of Load after Trim: empty lines and ';' or '#' comments are skipped; `[...]`
      makes its trimmed interior the current section; a line without '=' is skipped; otherwise
      the trimmed text before the first '=' is the key, the trimmed rest the value, stored in
      the current section over any earlier value. */
  function ParseLine(st: ParseState, raw: string): ParseState {
    ParseTrimmed(st, Trimmed(raw))
  }

  /** ParseLine on the line once trimmed. */
  function ParseTrimmed(st: ParseState, line: string): ParseState {
    if line == [] then st
    else if line[0] == ';' || line[0] == '#' then st
    else if line[0] == '[' && line[|line| - 1] == ']' then ParseState(Trimmed(line[1..|line| - 1]), st.data)
    else
      var equalsPos := FindChar(line, '=');
      if equalsPos == |line| then st
      else ParseState(st.section, Put(st.data, st.section, Trimmed(line[..equalsPos]), Trimmed(line[equalsPos + 1..])))
  }

  /** Load's loop over the lines, from state `st`. */
  function Parsed(lines: seq<string>, st: ParseState): ParseState {
    if lines == [] then st else ParseLine(Parsed(lines[..|lines| - 1], st), lines[|lines| - 1])
  }

  /** A line adds at most one pair, under the current section, and only a header moves to
      another section. */
  lemma ParseLineEffect(st: ParseState, raw: string)
    ensures var r := ParseLine(st, raw);
            || r == st
            || (r.data == st.data && r.section == Trimmed(r.section))
            || (r.section == st.section && exists k, v :: r.data == Put(st.data, st.section, k, v))
  {
    var line := Trimmed(raw);
    if line != [] && line[0] != ';' && line[0] != '#' {
      if line[0] == '[' && line[|line| - 1] == ']' {
        TrimmedIdempotent(line[1..|line| - 1]);
      }
    }
  }

  /** Reading lines one after another is reading the second lot from where the first left
      off. */
  lemma {:induction false} ParsedConcat(a: seq<string>, b: seq<string>, st: ParseState)
    ensures Parsed(a + b, st) == Parsed(b, Parsed(a, st))
  {
    if b == [] {
      assert a + b == a;
    } else {
      assert (a + b)[..|a + b| - 1] == a + b[..|b| - 1];
      ParsedConcat(a, b[..|b| - 1], st);
    }
  }

  /** A name or value Save can write and Load read back unchanged: no line break and no
      whitespace at either end. */
  predicate NameOk(s: string) {
    '\n' !in s && NoEdgeSpace(s)
  }

  /** A key Load reads back unchanged: also no '=', and it cannot pass for a comment or a
      header. */
  predicate KeyOk(k: string) {
    NameOk(k) && '=' !in k && (k == [] || (k[0] != ';' && k[0] != '#' && k[0] != '['))
  }

  /** Settings whose saved text loads back as the same settings. */
  predicate Saveable(data: Data) {
    forall s :: s in data ==>
      && NameOk(s) && data[s] != map[]
      && forall k :: k in data[s] ==> KeyOk(k) && NameOk(data[s][k])
  }

  /** The header line of a section. */
  function HeaderLine(section: string): string {
    "[" + section + "]"
  }

  /** The line of one pair. */
  function PairLine(key: string, value: string): string {
    key + "=" + value
  }

  /** The pair lines of the given keys of a section, in that order. */
  function PairLines(keys: seq<string>, sec: Section): (r: seq<string>)
    requires forall i :: 0 <= i < |keys| ==> keys[i] in sec
    ensures |r| == |keys|
  {
    if keys == [] then []
    else PairLines(keys[..|keys| - 1], sec) + [PairLine(keys[|keys| - 1], sec[keys[|keys| - 1]])]
  }

  /** The lines of one more section are its header, pairs and blank line after the others. */
  lemma DataLinesAppended(sections: seq<string>, i: nat, data: Data)
    requires i < |sections| && forall j :: 0 <= j < |sections| ==> sections[j] in data
    ensures var s := sections[i];
            DataLines(sections[..i + 1], data)
            == DataLines(sections[..i], data) + [HeaderLine(s)] + PairLines(SortedStrings(data[s].Keys), data[s]) + [""]
  {
    var s := sections[i];
    assert sections[..i + 1][..i] == sections[..i];
    ConcatAssoc(DataLines(sections[..i], data), [HeaderLine(s)], PairLines(SortedStrings(data[s].Keys), data[s]), [""]);
  }

  lemma ConcatAssoc(a: seq<string>, b: seq<string>, c: seq<string>, d: seq<string>)
    ensures a + b + c + d == a + (b + c + d)
  {
  }

  /** One more pair line is one more line of text. */
  lemma PairLinesStep(pre: seq<string>, keyNames: seq<string>, keys: Section, j: nat)
    requires forall i :: 0 <= i < |keyNames| ==> keyNames[i] in keys
    requires j < |keyNames|
    ensures JoinLines(pre + PairLines(keyNames[..j + 1], keys))
            == JoinLines(pre + PairLines(keyNames[..j], keys)) + (keyNames[j] + "=" + keys[keyNames[j]]) + "\n"
  {
    var done := PairLines(keyNames[..j], keys);
    var line := PairLine(keyNames[j], keys[keyNames[j]]);
    assert keyNames[..j + 1][..j] == keyNames[..j];
    assert PairLines(keyNames[..j + 1], keys) == done + [line];
    assert pre + (done + [line]) == (pre + done) + [line];
    JoinLinesAppend(pre + done, line);
  }

  /** The lines SaveInternal writes for one section: its header, its pairs in ascending key
      order, and a blank line. */
  ghost function SectionLines(section: string, sec: Section): seq<string> {
    [HeaderLine(section)] + PairLines(SortedStrings(sec.Keys), sec) + [""]
  }

  /** The lines of the given sections, in that order. */
  ghost function DataLines(sections: seq<string>, data: Data): seq<string>
    requires forall i :: 0 <= i < |sections| ==> sections[i] in data
  {
    if sections == [] then []
    else DataLines(sections[..|sections| - 1], data) + SectionLines(sections[|sections| - 1], data[sections[|sections| - 1]])
  }

  /** The text SaveInternal writes: the sections in ascending order. */
  ghost function Rendered(data: Data): string {
    JoinLines(DataLines(SortedStrings(data.Keys), data))
  }

  /** The pairs of the given keys of a section. */
  function Pairs(keys: seq<string>, sec: Section): (r: Section)
    requires forall i :: 0 <= i < |keys| ==> keys[i] in sec
    ensures forall k :: k in r <==> k in keys
    ensures forall k :: k in r ==> r[k] == sec[k]
  {
    if keys == [] then map[] else Pairs(keys[..|keys| - 1], sec)[keys[|keys| - 1] := sec[keys[|keys| - 1]]]
  }

  /** The given sections of the settings. */
  function Sections(names: seq<string>, data: Data): (r: Data)
    requires forall i :: 0 <= i < |names| ==> names[i] in data
    ensures forall s :: s in r <==> s in names
    ensures forall s :: s in r ==> r[s] == data[s]
  {
    if names == [] then map[] else Sections(names[..|names| - 1], data)[names[|names| - 1] := data[names[|names| - 1]]]
  }

  /** Saving settings and loading the text back gives the same settings. */
  lemma SaveLoadRoundTrip(data: Data, start: string)
    requires Saveable(data)
    ensures Parsed(Lines(Rendered(data)), ParseState(start, map[])).data == data
  {
    var names := SortedStrings(data.Keys);
    assert Lines(Rendered(data)) == DataLines(names, data) by {
      DataLinesNoBreak(names, data);
      LinesOfJoin(DataLines(names, data));
    }
    SectionsParsed(names, data, start);
    SectionsAll(names, data);
  }

  /** The given sections are all of the settings when every section is given. */
  lemma SectionsAll(names: seq<string>, data: Data)
    requires forall i :: 0 <= i < |names| ==> names[i] in data
    requires forall s :: s in data ==> s in names
    ensures Sections(names, data) == data
  {
  }

  /** No line holds a line break. */
  predicate NoBreaks(lines: seq<string>) {
    forall i :: 0 <= i < |lines| ==> '\n' !in lines[i]
  }

  lemma NoBreaksConcat(a: seq<string>, b: seq<string>)
    requires NoBreaks(a) && NoBreaks(b)
    ensures NoBreaks(a + b)
  {
    forall i | 0 <= i < |a + b|
      ensures '\n' !in (a + b)[i]
    {
      if i < |a| {
        assert (a + b)[i] == a[i];
      } else {
        assert (a + b)[i] == b[i - |a|];
      }
    }
  }

  /** No line of saved text holds a line break. */
  lemma {:induction false} DataLinesNoBreak(sections: seq<string>, data: Data)
    requires Saveable(data) && forall i :: 0 <= i < |sections| ==> sections[i] in data
    ensures NoBreaks(DataLines(sections, data))
  {
    if sections != [] {
      var init := sections[..|sections| - 1];
      var s := sections[|sections| - 1];
      DataLinesNoBreak(init, data);
      var pairs := PairLines(SortedStrings(data[s].Keys), data[s]);
      assert NoBreaks([HeaderLine(s)] + pairs + [""]) by {
        PairLinesNoBreak(SortedStrings(data[s].Keys), data[s]);
        NoBreakJoin("[", s, "]");
        NoBreaksConcat([HeaderLine(s)], pairs);
        NoBreaksConcat([HeaderLine(s)] + pairs, [""]);
      }
      NoBreaksConcat(DataLines(init, data), SectionLines(s, data[s]));
    }
  }

  /** No pair line of a saved section holds a line break. */
  lemma {:induction false} PairLinesNoBreak(keys: seq<string>, sec: Section)
    requires forall i :: 0 <= i < |keys| ==> keys[i] in sec
    requires forall k :: k in sec ==> NameOk(k) && NameOk(sec[k])
    ensures NoBreaks(PairLines(keys, sec))
  {
    if keys != [] {
      var k := keys[|keys| - 1];
      PairLinesNoBreak(keys[..|keys| - 1], sec);
      NoBreakJoin(k, "=", sec[k]);
      NoBreaksConcat(PairLines(keys[..|keys| - 1], sec), [PairLine(k, sec[k])]);
    }
  }

  lemma NoBreakJoin(a: string, b: string, c: string)
    requires '\n' !in a && '\n' !in b && '\n' !in c
    ensures '\n' !in a + b + c
  {
  }

  /** Loading the lines of some sections gives exactly those sections. */
  lemma {:induction false} SectionsParsed(sections: seq<string>, data: Data, start: string)
    requires Saveable(data) && forall i :: 0 <= i < |sections| ==> sections[i] in data
    ensures Parsed(DataLines(sections, data), ParseState(start, map[])).data == Sections(sections, data)
  {
    if sections == [] {
    } else {
      var init := sections[..|sections| - 1];
      var s := sections[|sections| - 1];
      SectionsParsed(init, data, start);
      var st := Parsed(DataLines(init, data), ParseState(start, map[]));
      ParsedConcat(DataLines(init, data), SectionLines(s, data[s]), ParseState(start, map[]));
      SectionParsed(s, data[s], st);
    }
  }

  /** Loading one saved section puts that section's pairs in place of what was there. */
  lemma SectionParsed(s: string, sec: Section, st: ParseState)
    requires NameOk(s) && sec != map[]
    requires forall k :: k in sec ==> KeyOk(k) && NameOk(sec[k])
    requires s in st.data ==> st.data[s] == sec
    ensures Parsed(SectionLines(s, sec), st).data == st.data[s := sec]
  {
    var keys := SortedStrings(sec.Keys);
    var header := [HeaderLine(s)];
    var pairs := PairLines(keys, sec);
    HeaderParsed(s, st);
    var st1 := ParseState(s, st.data);
    assert Parsed(header, st) == st1;
    PairsParsed(keys, sec, st1);
    ParsedConcat(header, pairs, st);
    ParsedConcat(header + pairs, [""], st);
    UnionSame(SectionOf(st.data, s), sec);
    assert keys != [] by {
      var k :| k in sec;
      assert k in keys;
    }
    PutAllPairs(st.data, s, keys, sec);
    PairsAll(keys, sec);
  }

  lemma UnionSame(a: Section, b: Section)
    requires a == map[] || a == b
    ensures a + b == b
  {
  }

  /** The pairs of all keys of a section are the section. */
  lemma PairsAll(keys: seq<string>, sec: Section)
    requires forall i :: 0 <= i < |keys| ==> keys[i] in sec
    requires forall k :: k in sec ==> k in keys
    ensures Pairs(keys, sec) == sec
  {
  }

  /** A saved header line makes its section current and stores nothing. */
  lemma HeaderParsed(s: string, st: ParseState)
    requires NameOk(s)
    ensures ParseLine(st, HeaderLine(s)) == ParseState(s, st.data)
  {
    HeaderLineShape(s);
    HeaderShapeParsed(st, HeaderLine(s), s);
  }

  lemma HeaderLineShape(s: string)
    requires NameOk(s)
    ensures var line := HeaderLine(s);
            && |line| >= 2 && NoEdgeSpace(line) && line[0] == '[' && line[|line| - 1] == ']'
            && line[1..|line| - 1] == s
  {
  }

  /** How ParseLine reads a trimmed line framed by brackets. */
  lemma HeaderShapeParsed(st: ParseState, line: string, s: string)
    requires NoEdgeSpace(s)
    requires |line| >= 2 && NoEdgeSpace(line) && line[0] == '[' && line[|line| - 1] == ']'
    requires line[1..|line| - 1] == s
    ensures ParseLine(st, line) == ParseState(s, st.data)
  {
    TrimmedFixed(line);
    TrimmedFixed(s);
  }

  /** A saved pair line stores its pair in the current section. */
  lemma PairParsed(k: string, v: string, st: ParseState)
    requires KeyOk(k) && NameOk(v)
    ensures ParseLine(st, PairLine(k, v)) == ParseState(st.section, Put(st.data, st.section, k, v))
  {
    PairLineShape(k, v);
    PairShapeParsed(st, PairLine(k, v), k, v);
  }

  lemma PairLineShape(k: string, v: string)
    requires KeyOk(k) && NameOk(v)
    ensures var line := PairLine(k, v);
            && |line| > |k| && Trimmed(line) == line && line[0] != ';' && line[0] != '#' && line[0] != '['
            && FindChar(line, '=') == |k| && Trimmed(line[..|k|]) == k && Trimmed(line[|k| + 1..]) == v
  {
    var line := PairLine(k, v);
    assert line == k + ("=" + v);
    assert FindChar(line, '=') == |k| by {
      FindFirst(k, "=" + v, '=');
    }
    assert Trimmed(line) == line by {
      TrimmedFixed(line);
    }
    assert Trimmed(line[..|k|]) == k by {
      assert line[..|k|] == k;
      TrimmedFixed(k);
    }
    assert Trimmed(line[|k| + 1..]) == v by {
      assert line[|k| + 1..] == v;
      TrimmedFixed(v);
    }
  }

  /** How ParseLine reads a trimmed line whose first '=' follows its key. */
  lemma PairShapeParsed(st: ParseState, line: string, k: string, v: string)
    requires |line| > |k| && Trimmed(line) == line && line[0] != ';' && line[0] != '#' && line[0] != '['
    requires FindChar(line, '=') == |k| && Trimmed(line[..|k|]) == k && Trimmed(line[|k| + 1..]) == v
    ensures ParseLine(st, line) == ParseState(st.section, Put(st.data, st.section, k, v))
  {
  }

  /** The data after `data[section][key] = sec[key]` for each of the keys in turn. */
  function PutAll(data: Data, section: string, keys: seq<string>, sec: Section): Data
    requires forall i :: 0 <= i < |keys| ==> keys[i] in sec
  {
    if keys == [] then data
    else Put(PutAll(data, section, keys[..|keys| - 1], sec), section, keys[|keys| - 1], sec[keys[|keys| - 1]])
  }

  /** Loading saved pair lines stores those pairs, one by one, in the current section. */
  lemma {:induction false} PairsParsed(keys: seq<string>, sec: Section, st: ParseState)
    requires forall i :: 0 <= i < |keys| ==> keys[i] in sec
    requires forall k :: k in sec ==> KeyOk(k) && NameOk(sec[k])
    ensures Parsed(PairLines(keys, sec), st) == ParseState(st.section, PutAll(st.data, st.section, keys, sec))
  {
    if keys != [] {
      PairsParsed(keys[..|keys| - 1], sec, st);
      PairLinesSnoc(keys, sec, st);
    }
  }

  /** Storing the pairs of some keys one by one merges them into the section. */
  lemma {:induction false} PutAllPairs(data: Data, section: string, keys: seq<string>, sec: Section)
    requires keys != [] && forall i :: 0 <= i < |keys| ==> keys[i] in sec
    ensures PutAll(data, section, keys, sec) == data[section := SectionOf(data, section) + Pairs(keys, sec)]
  {
    var init := keys[..|keys| - 1];
    var k := keys[|keys| - 1];
    var before := SectionOf(data, section);
    var mid := if init == [] then before else before + Pairs(init, sec);
    var d1 := PutAll(data, section, init, sec);
    assert d1 == data || d1 == data[section := mid] by {
      if init != [] {
        PutAllPairs(data, section, init, sec);
      }
    }
    assert SectionOf(d1, section) == mid by {
      if init != [] {
        PutAllPairs(data, section, init, sec);
      }
    }
    assert PutAll(data, section, keys, sec) == data[section := mid[k := sec[k]]] by {
      assert PutAll(data, section, keys, sec) == d1[section := mid[k := sec[k]]];
      UpdateAgain(data, d1, section, mid, mid[k := sec[k]]);
    }
    assert mid[k := sec[k]] == before + Pairs(keys, sec) by {
      assert Pairs(keys, sec) == Pairs(init, sec)[k := sec[k]];
      UnionUpdate(before, Pairs(init, sec), k, sec[k]);
      if init == [] {
        assert before + Pairs(init, sec) == before;
      }
    }
  }

  lemma UpdateAgain(d: Data, d1: Data, s: string, x: Section, y: Section)
    requires d1 == d || d1 == d[s := x]
    ensures d1[s := y] == d[s := y]
  {
  }

  /** The last pair line is read after the others. */
  lemma PairLinesSnoc(keys: seq<string>, sec: Section, st: ParseState)
    requires keys != [] && forall i :: 0 <= i < |keys| ==> keys[i] in sec
    requires forall k :: k in sec ==> KeyOk(k) && NameOk(sec[k])
    ensures var st1 := Parsed(PairLines(keys[..|keys| - 1], sec), st);
            Parsed(PairLines(keys, sec), st) == ParseState(st1.section, Put(st1.data, st1.section, keys[|keys| - 1], sec[keys[|keys| - 1]]))
  {
    var lines := PairLines(keys, sec);
    var k := keys[|keys| - 1];
    assert lines[..|lines| - 1] == PairLines(keys[..|keys| - 1], sec);
    PairParsed(k, sec[k], Parsed(PairLines(keys[..|keys| - 1], sec), st));
  }

  lemma UnionUpdate(a: Section, b: Section, k: string, v: string)
    ensures a + b[k := v] == (a + b)[k := v]
  {
  }

  /** The static state of EditorSettings, and the files Save has written. */
  class Settings {
    var data: Data
    var filePath: string
    var dirty: bool
    var disk: map<string, string>

    constructor()
      ensures data == map[] && filePath == "" && !dirty && disk == map[]
    {
      data, filePath, dirty, disk := map[], "", false, map[];
    }

    /** EditorSettings::SetString: the value is stored (an absent entry is created even when
        the value is empty), and the settings become dirty only if it differs from what was
        stored, the empty string for an absent entry. */
    method SetString(section: string, key: string, value: string)
      modifies this
      ensures data == Put(old(data), section, key, value)
      ensures dirty == (old(dirty) || GetString(old(data), section, key, "") != value)
      ensures filePath == old(filePath) && disk == old(disk)
    {
      var current := GetString(data, section, key, "");
      data := Put(data, section, key, current);
      if current != value {
        PutTwice(old(data), section, key, current, value);
        data := Put(data, section, key, value);
        dirty := true;
      }
    }

    /** EditorSettings::SetInt: the int's decimal text is stored. */
    method SetInt(section: string, key: string, value: Int32)
      modifies this
      ensures data == Put(old(data), section, key, IntToString(value))
      ensures dirty == (old(dirty) || GetString(old(data), section, key, "") != IntToString(value))
      ensures GetInt(data, section, key, 0) == value
      ensures filePath == old(filePath) && disk == old(disk)
    {
      SetString(section, key, IntToString(value));
      GetIntAfterSetInt(old(data), section, key, value, 0);
    }

    /** EditorSettings::SetBool: "true" or "false" is stored. */
    method SetBool(section: string, key: string, value: bool)
      modifies this
      ensures data == Put(old(data), section, key, BoolText(value))
      ensures dirty == (old(dirty) || GetString(old(data), section, key, "") != BoolText(value))
      ensures GetBool(data, section, key, false) == value
      ensures filePath == old(filePath) && disk == old(disk)
    {
      SetString(section, key, if value then "true" else "false");
      GetBoolAfterSetBool(old(data), section, key, value, false);
    }

    /** EditorSettings::SetDefault: only an absent entry is written, and that makes the settings
        dirty; a present one is never overwritten. */
    method SetDefault(section: string, key: string, value: string)
      modifies this
      ensures Has(old(data), section, key) ==> data == old(data) && dirty == old(dirty)
      ensures !Has(old(data), section, key) ==> data == Put(old(data), section, key, value) && dirty
      ensures filePath == old(filePath) && disk == old(disk)
    {
      if !Has(data, section, key) {
        dirty := true;
        data := Put(data, section, key, value);
      }
    }

    /** EditorSettings::EnsureDefaults: Editor.UIScale defaults to "1.0". */
    method EnsureDefaults()
      modifies this
      ensures Has(old(data), "Editor", "UIScale") ==> data == old(data) && dirty == old(dirty)
      ensures !Has(old(data), "Editor", "UIScale") ==> data == Put(old(data), "Editor", "UIScale", "1.0") && dirty
      ensures Has(data, "Editor", "UIScale")
      ensures filePath == old(filePath) && disk == old(disk)
    {
      SetDefault("Editor", "UIScale", "1.0");
    }

    /** EditorSettings::Save: nothing happens when clean; otherwise the text is written and the
        settings are clean again. */
    method Save()
      modifies this
      ensures !old(dirty) ==> disk == old(disk)
      ensures old(dirty) ==> disk == old(disk)[filePath := Rendered(data)]
      ensures !dirty && data == old(data) && filePath == old(filePath)
    {
      if !dirty {
        return;
      }
      SaveInternal();
      dirty := false;
    }

    /** EditorSettings::SaveInternal: the sections in ascending order, each as its header, its
        key=value lines in ascending key order and a blank line, land at the file's path (written
        to a temporary file and renamed over it). */
    method SaveInternal()
      modifies this
      ensures disk == old(disk)[filePath := Rendered(data)]
      ensures data == old(data) && filePath == old(filePath) && dirty == old(dirty)
    {
      var text := Render();
      disk := disk[filePath := text];
    }

    /** The text SaveInternal writes, built section by section. */
    method Render() returns (text: string)
      ensures text == Rendered(data)
    {
      var sections := SortStrings(data.Keys);
      text := RenderSections(sections);
    }

    /** SaveInternal's loop over the given sections. */
    method RenderSections(sections: seq<string>) returns (text: string)
      requires forall j :: 0 <= j < |sections| ==> sections[j] in data
      ensures text == JoinLines(DataLines(sections, data))
    {
      text := "";
      for i := 0 to |sections|
        invariant text == JoinLines(DataLines(sections[..i], data))
      {
        text := WriteSection(text, sections, i);
      }
      assert sections[..|sections|] == sections;
    }

    /** One turn of SaveInternal's loop: the header, the sorted pairs and the blank line of one
        section are appended to the text. */
    method WriteSection(text: string, sections: seq<string>, i: nat) returns (r: string)
      requires i < |sections| && forall j :: 0 <= j < |sections| ==> sections[j] in data
      requires text == JoinLines(DataLines(sections[..i], data))
      ensures r == JoinLines(DataLines(sections[..i + 1], data))
    {
      var section := sections[i];
      ghost var lines := DataLines(sections[..i], data);
      var header := "[" + section + "]";
      r := text + header + "\n";
      assert r == JoinLines(lines + [header]) by {
        JoinLinesAppend(lines, header);
      }
      var keys := data[section];
      var keyNames := SortStrings(keys.Keys);
      r := WritePairs(r, lines + [header], keyNames, keys);
      ghost var pairs := PairLines(keyNames, keys);
      r := r + "\n";
      assert r == JoinLines(lines + [header] + pairs + [""]) by {
        JoinLinesAppend(lines + [header] + pairs, "");
      }
      DataLinesAppended(sections, i, data);
    }

    /** The inner loop of SaveInternal: one key=value line per key, in the given order. */
    static method WritePairs(text: string, ghost pre: seq<string>, keyNames: seq<string>, keys: Section) returns (r: string)
      requires forall j :: 0 <= j < |keyNames| ==> keyNames[j] in keys
      requires text == JoinLines(pre)
      ensures r == JoinLines(pre + PairLines(keyNames, keys))
    {
      r := text;
      assert pre + PairLines(keyNames[..0], keys) == pre;
      for j := 0 to |keyNames|
        invariant r == JoinLines(pre + PairLines(keyNames[..j], keys))
      {
        var line := keyNames[j] + "=" + keys[keyNames[j]];
        PairLinesStep(pre, keyNames, keys, j);
        r := r + line + "\n";
      }
      assert keyNames[..|keyNames|] == keyNames;
    }

    /** EditorSettings::Load: the stored settings are cleared and the path remembered; a file
        that cannot be opened gives false; otherwise every line is read into `outData` and true
        is returned. */
    method Load(path: string, file: Option<string>, outData: Data) returns (loaded: bool, out: Data)
      modifies this
      ensures filePath == path && data == map[] && dirty == old(dirty) && disk == old(disk)
      ensures file == None ==> !loaded && out == outData
      ensures file != None ==> loaded && out == Parsed(Lines(file.value), ParseState("", outData)).data
    {
      filePath := path;
      data := map[];
      if file == None {
        return false, outData;
      }
      var lines := Lines(file.value);
      var currentSection := "";
      out := outData;
      for i := 0 to |lines|
        invariant ParseState(currentSection, out) == Parsed(lines[..i], ParseState("", outData))
        invariant filePath == path && data == map[] && dirty == old(dirty) && disk == old(disk)
      {
        assert lines[..i + 1][..i] == lines[..i];
        currentSection, out := ReadLine(currentSection, out, lines[i]);
      }
      assert lines[..|lines|] == lines;
      return true, out;
    }

    /** One turn of Load's loop. */
    static method ReadLine(currentSection: string, outData: Data, raw: string) returns (section: string, out: Data)
      ensures ParseState(section, out) == ParseLine(ParseState(currentSection, outData), raw)
    {
      section, out := currentSection, outData;
      var line := Trim(raw);
      ghost var st := ParseState(currentSection, outData);
      assert ParseLine(st, raw) == ParseTrimmed(st, line);
      if line == [] {
        return;
      }
      if line[0] == ';' || line[0] == '#' {
        return;
      }
      if line[0] == '[' && line[|line| - 1] == ']' {
        section := Trim(line[1..|line| - 1]);
        return;
      }
      var equalsPos := FindChar(line, '=');
      if equalsPos == |line| {
        return;
      }
      var key := Trim(line[..equalsPos]);
      var value := Trim(line[equalsPos + 1..]);
      out := Put(out, section, key, value);
    }

    /** EditorSettings::Initialise: the settings are what the file holds (none when it cannot be
        opened), then the defaults are filled in and saved if anything is dirty. */
    method Initialise(path: string, file: Option<string>)
      modifies this
      ensures var loaded := if file == None then map[] else Parsed(Lines(file.value), ParseState("", map[])).data;
              && (Has(loaded, "Editor", "UIScale") ==> data == loaded)
              && (!Has(loaded, "Editor", "UIScale") ==> data == Put(loaded, "Editor", "UIScale", "1.0"))
              && (old(dirty) || !Has(loaded, "Editor", "UIScale") ==> disk == old(disk)[path := Rendered(data)])
              && (!old(dirty) && Has(loaded, "Editor", "UIScale") ==> disk == old(disk))
      ensures filePath == path && !dirty
    {
      filePath := path;
      var loaded, loadedData := Load(path, file, map[]);
      if loaded {
        data := loadedData;
      } else {
        data := map[];
      }
      EnsureDefaults();
      Save();
    }
}
}
