/** Loading the bytes of a test case from its file, and completing registers from the snapshot. */
module TestCaseInputs {
  import opened Wrappers
  import opened VarNames

  /** A variable's bytes, as far as they are given, and its decoded label. */
  datatype Variable = Variable(bytes: seq<Option<nat>>, info: seq<nat>)

  type Inputs = map<Key, Variable>

  function Unset(size: nat): seq<Option<nat>> {
    seq(size, _ => None)
  }

  /** A negative index counts from the end. */
  function Position(index: int, n: nat): int {
    if index < 0 then index + n else index
  }

  /** Records one byte; labels must agree and the index must be inside the variable. */
  function Store(inputs: Inputs, key: Key, info: seq<nat>, size: int, index: int, value: int): Option<Inputs> {
    var x := if key in inputs then inputs[key] else Variable(Unset(if size < 0 then 0 else size), info);
    var i := Position(index, |x.bytes|);
    if x.info != info || !(0 <= i < |x.bytes|) || !(0 <= value < 256) then None
    else Some(inputs[key := x.(bytes := x.bytes[i := Some(value)])])
  }

  /**
   A byte is recorded exactly when the label agrees, the index lies in the variable, counted from either end, and the
   value is a byte.  Nothing else changes, and a new variable has no other bytes.
   */
  lemma {:induction false} StoreExactly(inputs: Inputs, key: Key, info: seq<nat>, size: int, index: int, value: int)
    ensures var n := if key in inputs then |inputs[key].bytes| else if size < 0 then 0 else size;
            var m := Store(inputs, key, info, size, index, value);
            && (m.Some? <==> (key in inputs ==> inputs[key].info == info) && -n <= index < n && 0 <= value <= 255)
            && (m.Some? ==>
                  && m.value.Keys == inputs.Keys + {key}
                  && (forall k | k in inputs && k != key :: m.value[k] == inputs[k])
                  && m.value[key].info == info && |m.value[key].bytes| == n
                  && (forall j | 0 <= j < n ::
                        m.value[key].bytes[j] ==
                        if j == index || j == n + index then Some(value)
                        else if key in inputs then inputs[key].bytes[j] else None))
  {
  }

  /** One line of the file; lines that do not name an input are skipped, malformed ones are errors. */
  function LoadLine(inputs: Inputs, line: string): Option<Inputs> {
    var l := Strip(line);
    if !StartsWith(l, "in_") then Some(inputs)
    else
      var assignment := Split(l, '=');
      var parts := Split(assignment[0], '_');
      if |assignment| != 2 || |parts| != 6 then None
      else
        var key := (parts[1], parts[2]);
        var info := Base32.Decode(parts[3]);
        var size := ReadInt(parts[4], 10);
        var index := ReadInt(parts[5], 10);
        var value := ReadInt(assignment[1], 16);
        if info.None? || (key !in inputs && size.None?) || index.None? || value.None? then None
        else Store(inputs, key, info.value, if size.Some? then size.value else 0, index.value, value.value)
  }

  function LoadLines(lines: seq<string>): Option<Inputs> {
    if lines == [] then Some(map[])
    else
      var before := LoadLines(lines[..|lines| - 1]);
      if before.None? then None else LoadLine(before.value, lines[|lines| - 1])
  }

  lemma {:induction false} ErrorsStay(lines: seq<string>, n: nat)
    requires n <= |lines| && LoadLines(lines[..n]).None?
    ensures LoadLines(lines).None?
    decreases |lines|
  {
    if n < |lines| {
      var front := lines[..|lines| - 1];
      assert front[..n] == lines[..n];
      ErrorsStay(front, n);
    } else {
      assert lines[..n] == lines;
    }
  }

  function Together(inputs: map<Key, seq<Option<nat>>>, info: map<Key, seq<nat>>): Inputs {
    map k | k in inputs && k in info :: Variable(inputs[k], info[k])
  }

  /** Fills the two dictionaries line by line. */
  /** A line that gives a value to a variable: its name in six parts, and the value. */
  ghost predicate IsInputLine(line: string, parts: seq<string>, value: string) {
    && |parts| == 6 && parts[0] == "in" && Without(parts, '_') && Without(parts, '=') && '=' !in value
    && Strip(line) == Join(parts, '_') + "=" + value
  }

  lemma {:induction false} SplitsInputLine(line: string, parts: seq<string>, value: string)
    requires IsInputLine(line, parts, value)
    ensures StartsWith(Strip(line), "in_")
    ensures Split(Strip(line), '=') == [Join(parts, '_'), value] && Split(Join(parts, '_'), '_') == parts
  {
    var name := Join(parts, '_');
    assert name == "in" + ['_'] + Join(parts[1..], '_');
    assert Strip(line)[..3] == "in_";
    SplitOfJoin(parts, '_');
    JoinAvoids(parts, '_', '=');
    SplitFirst(name, '=', value);
    SplitNone(value, '=');
  }

  /** An input line is loaded if and only if its label and numbers can be read and the byte can be stored. */
  lemma {:induction false} InputLineExactly(inputs: Inputs, line: string, parts: seq<string>, value: string)
    requires IsInputLine(line, parts, value)
    ensures var info, size := Base32.Decode(parts[3]), ReadInt(parts[4], 10);
            var index, v, known := ReadInt(parts[5], 10), ReadInt(value, 16), (parts[1], parts[2]) in inputs;
            LoadLine(inputs, line) ==
            if info.Some? && (known || size.Some?) && index.Some? && v.Some? then
              Store(inputs, (parts[1], parts[2]), info.value, if size.Some? then size.value else 0, index.value,
                    v.value)
            else None
  {
    SplitsInputLine(line, parts, value);
  }

  /** Any other line is passed over, or an error if it begins like one. */
  lemma {:induction false} OtherLineExactly(inputs: Inputs, line: string)
    requires forall parts, value :: !IsInputLine(line, parts, value)
    ensures LoadLine(inputs, line) == if StartsWith(Strip(line), "in_") then None else Some(inputs)
  {
    var l := Strip(line);
    var assignment := Split(l, '=');
    var parts := Split(assignment[0], '_');
    if StartsWith(l, "in_") && |assignment| == 2 && |parts| == 6 {
      InputLineOf(line, assignment, parts);
      assert false;
    }
  }

  lemma {:induction false} InputLineOf(line: string, assignment: seq<string>, parts: seq<string>)
    requires assignment == Split(Strip(line), '=') && |assignment| == 2
    requires parts == Split(assignment[0], '_') && |parts| == 6
    requires StartsWith(Strip(line), "in_")
    ensures IsInputLine(line, parts, assignment[1])
  {
    var l := Strip(line);
    JoinOfSplit(l, '=');
    JoinOfSplit(assignment[0], '_');
    assert l == assignment[0] + ['='] + assignment[1] by {
      assert assignment[1..] == [assignment[1]];
    }
    PartsAvoid(parts, '_', '=');
    var rest := Join(parts[1..], '_');
    assert l == parts[0] + ['_'] + rest + ['='] + assignment[1];
    FirstPartIs(l, parts[0], rest + ['='] + assignment[1]);
  }

  lemma {:induction false} PartsAvoid(parts: seq<string>, c: char, d: char)
    requires |parts| > 0 && d !in Join(parts, c)
    ensures Without(parts, d)
  {
    if |parts| > 1 {
      PartsAvoid(parts[1..], c, d);
      assert forall i | 1 <= i < |parts| :: parts[i] == parts[1..][i - 1];
      forall x | x in parts[0]
        ensures x in Join(parts, c)
      {
      }
    }
  }

  lemma {:induction false} FirstPartIs(l: string, first: string, rest: string)
    requires l == first + ['_'] + rest && '_' !in first && StartsWith(l, "in_")
    ensures first == "in"
  {
    assert l[..3] == "in_";
    assert l[0] == 'i' && l[1] == 'n' && l[2] == '_';
    assert l[|first|] == '_';
    assert forall i | 0 <= i < |first| :: l[i] == first[i] && l[i] != '_';
  }

  method LoadFuzzballTc(text: string) returns (r: Option<Inputs>)
    ensures r == LoadLines(Split(text, '\n'))
  {
    var inputs: map<Key, seq<Option<nat>>> := map[];
    var varsInfo: map<Key, seq<nat>> := map[];
    var lines := Split(text, '\n');
    for n := 0 to |lines|
      invariant inputs.Keys == varsInfo.Keys
      invariant LoadLines(lines[..n]) == Some(Together(inputs, varsInfo))
    {
      assert lines[..n + 1][..n] == lines[..n];
      var ok;
      ok, inputs, varsInfo := LoadOne(inputs, varsInfo, lines[n]);
      if !ok {
        ErrorsStay(lines, n + 1);
        return None;
      }
    }
    assert lines[..|lines|] == lines;
    r := Some(Together(inputs, varsInfo));
  }

  method LoadOne(inputs: map<Key, seq<Option<nat>>>, varsInfo: map<Key, seq<nat>>, line: string)
    returns (ok: bool, inputs': map<Key, seq<Option<nat>>>, varsInfo': map<Key, seq<nat>>)
    requires inputs.Keys == varsInfo.Keys
    ensures inputs'.Keys == varsInfo'.Keys
    ensures LoadLine(Together(inputs, varsInfo), line) == if ok then Some(Together(inputs', varsInfo')) else None
  {
    ok, inputs', varsInfo' := false, inputs, varsInfo;
    var l := Strip(line);
    if !StartsWith(l, "in_") {
      ok := true;
      return;
    }
    var assignment := Split(l, '=');
    if |assignment| != 2 {
      return;
    }
    var parts := Split(assignment[0], '_');
    if |parts| != 6 {
      return;
    }
    var key := (parts[1], parts[2]);
    var info := Base32.Decode(parts[3]);
    var size := ReadInt(parts[4], 10);
    var index := ReadInt(parts[5], 10);
    var value := ReadInt(assignment[1], 16);
    if info.None? || (key !in inputs && size.None?) || index.None? || value.None? {
      return;
    }
    ok, inputs', varsInfo' :=
      StoreOne(inputs, varsInfo, key, info.value, if size.Some? then size.value else 0, index.value, value.value);
  }

  method StoreOne(inputs: map<Key, seq<Option<nat>>>, varsInfo: map<Key, seq<nat>>, key: Key, info: seq<nat>,
      size: int, index: int, value: int)
    returns (ok: bool, inputs': map<Key, seq<Option<nat>>>, varsInfo': map<Key, seq<nat>>)
    requires inputs.Keys == varsInfo.Keys
    ensures inputs'.Keys == varsInfo'.Keys
    ensures Store(Together(inputs, varsInfo), key, info, size, index, value) ==
            if ok then Some(Together(inputs', varsInfo')) else None
  {
    ok, inputs', varsInfo' := false, inputs, varsInfo;
    if key !in inputs {
      inputs' := inputs'[key := Unset(if size < 0 then 0 else size)];
      varsInfo' := varsInfo'[key := info];
    }
    var i := Position(index, |inputs'[key]|);
    if varsInfo'[key] != info || !(0 <= i < |inputs'[key]|) || !(0 <= value < 256) {
      return;
    }
    ghost var bytes := inputs'[key];
    inputs' := inputs'[key := inputs'[key][i := Some(value)]];
    ok := true;
    StoreTogether(inputs, varsInfo, key, info, bytes, i, value);
    assert varsInfo' == varsInfo[key := info];
    assert inputs' == inputs[key := bytes[i := Some(value)]];
  }

  /** What storing one byte does to the two dictionaries taken together. */
  lemma {:induction false} StoreTogether(inputs: map<Key, seq<Option<nat>>>, varsInfo: map<Key, seq<nat>>, key: Key,
      info: seq<nat>, bytes: seq<Option<nat>>, i: nat, value: nat)
    requires inputs.Keys == varsInfo.Keys && i < |bytes|
    requires key in inputs ==> varsInfo[key] == info && inputs[key] == bytes
    ensures Together(inputs, varsInfo)[key := Variable(bytes[i := Some(value)], info)] ==
            Together(inputs[key := bytes[i := Some(value)]], varsInfo[key := info])
  {
  }

  // ---- the round trip through the file ----

  function StoreEntry(inputs: Inputs, e: Entry): Option<Inputs> {
    Store(inputs, e.Key(), e.info, e.size, e.index, e.value)
  }

  lemma {:induction false} LoadOfLine(inputs: Inputs, e: Entry)
    requires WellFormed(e)
    ensures LoadLine(inputs, LineOf(e)) == StoreEntry(inputs, e)
  {
    LineIsRecognised(e);
    LineSplits(e);
    Base32.RoundTrip(e.info);
    IntegersRoundTrip(e.size);
    IntegersRoundTrip(e.index);
    IntegersRoundTrip(e.value);
  }

  function LoadEntries(es: seq<Entry>): Option<Inputs> {
    if es == [] then Some(map[])
    else
      var before := LoadEntries(es[..|es| - 1]);
      if before.None? then None else StoreEntry(before.value, es[|es| - 1])
  }

  /** A line of the file: a byte of the test case, or anything that is not one. */
  datatype Line = Input(entry: Entry) | Other(text: string)

  predicate LegalLine(l: Line) {
    match l
    case Input(e) => WellFormed(e)
    case Other(t) => '\n' !in t && !StartsWith(Strip(t), "in_")
  }

  function TextOf(l: Line): string {
    match l
    case Input(e) => LineOf(e)
    case Other(t) => t
  }

  /** Every line is followed by a newline. */
  function FileOf(ls: seq<Line>): string {
    if ls == [] then "" else TextOf(ls[0]) + "\n" + FileOf(ls[1..])
  }

  function EntriesOf(ls: seq<Line>): seq<Entry> {
    if ls == [] then []
    else
      var front, l := EntriesOf(ls[..|ls| - 1]), ls[|ls| - 1];
      if l.Input? then front + [l.entry] else front
  }

  function TextsOf(ls: seq<Line>): seq<string> {
    seq(|ls|, i requires 0 <= i < |ls| => TextOf(ls[i]))
  }

  lemma {:induction false} SplitOfFile(ls: seq<Line>)
    requires forall i | 0 <= i < |ls| :: LegalLine(ls[i])
    ensures Split(FileOf(ls), '\n') == TextsOf(ls) + [""]
  {
    if ls == [] {
      assert TextsOf(ls) + [""] == [""];
    } else {
      assert LegalLine(ls[0]);
      if ls[0].Input? {
        LineSplits(ls[0].entry);
      }
      SplitOfFile(ls[1..]);
      SplitFirst(TextOf(ls[0]), '\n', FileOf(ls[1..]));
      assert TextsOf(ls) == [TextOf(ls[0])] + TextsOf(ls[1..]);
    }
  }

  lemma {:induction false} LoadOfTexts(ls: seq<Line>)
    requires forall i | 0 <= i < |ls| :: LegalLine(ls[i])
    ensures LoadLines(TextsOf(ls)) == LoadEntries(EntriesOf(ls))
  {
    if ls != [] {
      var front, l := ls[..|ls| - 1], ls[|ls| - 1];
      LoadOfTexts(front);
      assert TextsOf(ls)[..|ls| - 1] == TextsOf(front);
      assert LegalLine(l);
      var es := EntriesOf(front);
      if l.Input? {
        assert (es + [l.entry])[..|es|] == es;
        var before := LoadEntries(es);
        if before.Some? {
          LoadOfLine(before.value, l.entry);
        }
      }
    }
  }

  /** Loading a printed file is recording its entries one after the other. */
  lemma {:induction false} LoadOfFile(ls: seq<Line>)
    requires forall i | 0 <= i < |ls| :: LegalLine(ls[i])
    ensures LoadLines(Split(FileOf(ls), '\n')) == LoadEntries(EntriesOf(ls))
  {
    SplitOfFile(ls);
    LoadOfTexts(ls);
    TrailingNewline(TextsOf(ls));
  }

  lemma {:induction false} TrailingNewline(lines: seq<string>)
    ensures LoadLines(lines + [""]) == LoadLines(lines)
  {
    assert (lines + [""])[..|lines|] == lines;
    assert Strip("") == "";
  }

  // ---- what has been recorded ----

  /** The entry that introduces a variable. */
  function First(es: seq<Entry>, key: Key): Option<Entry> {
    if es == [] then None
    else
      var f := First(es[..|es| - 1], key);
      if f.Some? || es[|es| - 1].Key() != key then f else Some(es[|es| - 1])
  }

  /** The last value given to a byte. */
  function Given(es: seq<Entry>, key: Key, i: nat): Option<nat> {
    if es == [] then None
    else
      var e := es[|es| - 1];
      if e.Key() == key && e.index == i then Some(e.value) else Given(es[..|es| - 1], key, i)
  }

  /** The k-th entry gives the byte, and no later one does. */
  ghost predicate GivesLast(es: seq<Entry>, key: Key, i: nat, k: nat) {
    && k < |es| && es[k].Key() == key && es[k].index == i
    && (forall j | k < j < |es| :: es[j].Key() != key || es[j].index != i)
  }

  lemma {:induction false} GivenExactly(es: seq<Entry>, key: Key, i: nat)
    ensures Given(es, key, i).Some? <==> exists k :: 0 <= k < |es| && es[k].Key() == key && es[k].index == i
    ensures forall k: nat | GivesLast(es, key, i, k) :: Given(es, key, i) == Some(es[k].value)
  {
    if es != [] {
      var front, e := es[..|es| - 1], es[|es| - 1];
      GivenExactly(front, key, i);
      if e.Key() != key || e.index != i {
        forall k: nat | GivesLast(es, key, i, k)
          ensures Given(es, key, i) == Some(es[k].value)
        {
          assert GivesLast(front, key, i, k);
        }
      }
    }
  }

  /** An entry agrees with the one that introduced its variable. */
  predicate Fits(es: seq<Entry>, e: Entry) {
    var f := First(es, e.Key());
    var g := if f.Some? then f.value else e;
    e.info == g.info && e.index < g.size
  }

  predicate Agree(es: seq<Entry>) {
    es == [] || (Agree(es[..|es| - 1]) && Fits(es[..|es| - 1], es[|es| - 1]))
  }

  /** The dictionary holds exactly the variables of the entries, with exactly the bytes given. */
  ghost predicate Records(m: Inputs, es: seq<Entry>) {
    && (forall key :: key in m <==> First(es, key).Some?)
    && (forall key | key in m :: Recorded(m[key], es, key))
  }

  ghost predicate Recorded(x: Variable, es: seq<Entry>, key: Key)
    requires First(es, key).Some?
  {
    && x.info == First(es, key).value.info
    && |x.bytes| == First(es, key).value.size
    && (forall i | 0 <= i < |x.bytes| :: x.bytes[i] == Given(es, key, i))
  }

  /** Loading succeeds exactly when the entries of each variable agree, and then records all of them. */
  lemma {:induction false} LoadedExactly(es: seq<Entry>)
    ensures LoadEntries(es).Some? <==> Agree(es)
    ensures LoadEntries(es).Some? ==> Records(LoadEntries(es).value, es)
  {
    if es != [] {
      var front, e := es[..|es| - 1], es[|es| - 1];
      LoadedExactly(front);
      if LoadEntries(front).Some? {
        StoreRecords(LoadEntries(front).value, front, e);
        assert es == front + [e];
      }
    }
  }

  lemma {:induction false} StoreRecords(m: Inputs, es: seq<Entry>, e: Entry)
    requires Records(m, es)
    ensures StoreEntry(m, e).Some? <==> Fits(es, e)
    ensures StoreEntry(m, e).Some? ==> Records(StoreEntry(m, e).value, es + [e])
  {
    var key := e.Key();
    assert key in m ==> Recorded(m[key], es, key);
    if StoreEntry(m, e).Some? {
      var m' := StoreEntry(m, e).value;
      forall k
        ensures k in m' <==> First(es + [e], k).Some?
        ensures k in m' ==> Recorded(m'[k], es + [e], k)
      {
        assert (es + [e])[..|es|] == es;
        if k == key {
          StoreRecordsEntry(m, es, e);
        } else if k in m {
          assert Recorded(m[k], es, k);
          assert forall i: nat :: Given(es + [e], k, i) == Given(es, k, i);
        }
      }
    }
  }

  lemma {:induction false} StoreRecordsEntry(m: Inputs, es: seq<Entry>, e: Entry)
    requires Records(m, es) && StoreEntry(m, e).Some?
    ensures First(es + [e], e.Key()).Some? && Recorded(StoreEntry(m, e).value[e.Key()], es + [e], e.Key())
  {
    var key := e.Key();
    assert (es + [e])[..|es|] == es;
    if key in m {
      assert Recorded(m[key], es, key);
    } else {
      NothingGiven(es, key);
    }
  }

  lemma {:induction false} NothingGiven(es: seq<Entry>, key: Key)
    requires First(es, key).None?
    ensures forall i: nat :: Given(es, key, i).None?
  {
    if es != [] {
      NothingGiven(es[..|es| - 1], key);
    }
  }

  /** Entries for some bytes of some variables: each variable has one label and one size, each byte one value. */
  ghost predicate IsSelection(es: seq<Entry>) {
    && (forall i | 0 <= i < |es| :: es[i].index < es[i].size)
    && (forall i, j | 0 <= i < |es| && 0 <= j < |es| && es[i].Key() == es[j].Key() ::
          es[i].info == es[j].info && es[i].size == es[j].size)
    && (forall i, j | 0 <= i < j < |es| && es[i].Key() == es[j].Key() :: es[i].index != es[j].index)
  }

  lemma {:induction false} FirstIsThere(es: seq<Entry>, key: Key)
    ensures First(es, key).Some? ==> First(es, key).value in es && First(es, key).value.Key() == key
    ensures First(es, key).None? ==> forall i | 0 <= i < |es| :: es[i].Key() != key
  {
    if es != [] {
      FirstIsThere(es[..|es| - 1], key);
    }
  }

  lemma {:induction false} SelectionsAgree(es: seq<Entry>)
    requires IsSelection(es)
    ensures Agree(es)
  {
    if es != [] {
      var front, e := es[..|es| - 1], es[|es| - 1];
      SelectionsAgree(front);
      FirstIsThere(front, e.Key());
    }
  }

  lemma {:induction false} SelectedIsGiven(es: seq<Entry>, i: nat)
    requires IsSelection(es) && i < |es|
    ensures Given(es, es[i].Key(), es[i].index) == Some(es[i].value)
  {
    if i < |es| - 1 {
      var front := es[..|es| - 1];
      SelectedIsGiven(front, i);
      assert front[i] == es[i];
    }
  }

  lemma {:induction false} GivenIsSelected(es: seq<Entry>, key: Key, i: nat)
    requires Given(es, key, i).Some?
    ensures exists k | 0 <= k < |es| :: es[k].Key() == key && es[k].index == i && es[k].value == Given(es, key, i).value
  {
    var last := |es| - 1;
    if !(es[last].Key() == key && es[last].index == i) {
      var front := es[..last];
      GivenIsSelected(front, key, i);
      var k :| 0 <= k < |front| && front[k].Key() == key && front[k].index == i &&
        front[k].value == Given(front, key, i).value;
      assert es[k] == front[k];
    }
  }

  /** Whatever bytes of whatever variables a file names, loading it gives back those bytes and no others. */
  lemma {:induction false} FileRoundTrip(ls: seq<Line>)
    requires (forall i | 0 <= i < |ls| :: LegalLine(ls[i])) && IsSelection(EntriesOf(ls))
    ensures var es, r := EntriesOf(ls), LoadLines(Split(FileOf(ls), '\n'));
            && r.Some?
            && (forall k | 0 <= k < |es| :: var e := es[k];
                  && e.Key() in r.value && r.value[e.Key()].info == e.info && |r.value[e.Key()].bytes| == e.size
                  && r.value[e.Key()].bytes[e.index] == Some(e.value))
            && (forall key, i | key in r.value && 0 <= i < |r.value[key].bytes| && r.value[key].bytes[i].Some? ::
                  exists k | 0 <= k < |es| :: es[k].Key() == key && es[k].index == i)
            && (forall key | key in r.value :: exists k | 0 <= k < |es| :: es[k].Key() == key)
  {
    var es := EntriesOf(ls);
    LoadOfFile(ls);
    SelectionsAgree(es);
    LoadedExactly(es);
    var m := LoadEntries(es).value;
    forall k | 0 <= k < |es|
      ensures var e := es[k]; e.Key() in m && m[e.Key()].info == e.info && |m[e.Key()].bytes| == e.size
                              && m[e.Key()].bytes[e.index] == Some(e.value)
    {
      FirstIsThere(es, es[k].Key());
      SelectedIsGiven(es, k);
      assert Recorded(m[es[k].Key()], es, es[k].Key());
    }
    forall key, i | key in m && 0 <= i < |m[key].bytes| && m[key].bytes[i].Some?
      ensures exists k | 0 <= k < |es| :: es[k].Key() == key && es[k].index == i
    {
      assert Recorded(m[key], es, key);
      GivenIsSelected(es, key, i);
    }
    forall key | key in m
      ensures exists k | 0 <= k < |es| :: es[k].Key() == key
    {
      FirstIsThere(es, key);
    }
  }

  lemma {:induction false} TwoEntries(a: Entry, b: Entry)
    ensures EntriesOf([Input(a), Input(b)]) == [a, b]
  {
    var lines := [Input(a), Input(b)];
    assert lines[..1] == [lines[0]] && lines[..1][..0] == [];
    assert EntriesOf(lines[..1]) == [a];
  }

  lemma {:induction false} LabelsDisagree(a: Entry, b: Entry)
    requires a.Key() == b.Key() && a.info != b.info
    ensures LoadEntries([a, b]).None?
  {
    var es := [a, b];
    assert es[..1] == [a];
    assert First(es[..1], b.Key()) == Some(a);
    LoadedExactly(es);
  }

  /** A memory cell named under two labels makes a file that cannot be loaded. */
  lemma {:induction false} TwoLabelsFail(address: nat, info: seq<Base32.Byte>, info': seq<Base32.Byte>,
      x: Base32.Byte, y: Base32.Byte)
    requires info != info'
    ensures var lines := [Input(MemoryByte(address, info, x)), Input(MemoryByte(address, info', y))];
            LoadLines(Split(FileOf(lines), '\n')).None?
  {
    var a, b := MemoryByte(address, info, x), MemoryByte(address, info', y);
    MemoryBytesAreWellFormed(address, info, x);
    MemoryBytesAreWellFormed(address, info', y);
    LoadOfFile([Input(a), Input(b)]);
    TwoEntries(a, b);
    LabelsDisagree(a, b);
  }

  // ---- completing a register from the snapshot ----

  /** The bytes of a word, the least significant first. */
  function BytesOf(w: nat, n: nat): (s: seq<nat>)
    ensures |s| == n && forall i | 0 <= i < n :: s[i] < 256
  {
    if n == 0 then [] else [w % 256] + BytesOf(w / 256, n - 1)
  }

  function WordOf(s: seq<nat>): nat {
    if s == [] then 0 else s[0] + 256 * WordOf(s[1..])
  }

  lemma {:induction false} BytesOfWord(s: seq<nat>)
    requires forall i | 0 <= i < |s| :: s[i] < 256
    ensures BytesOf(WordOf(s), |s|) == s
  {
    if s != [] {
      BytesOfWord(s[1..]);
      assert WordOf(s) % 256 == s[0] && WordOf(s) / 256 == WordOf(s[1..]);
    }
  }

  function Pow256(i: nat): (p: nat)
    ensures p > 0
  {
    if i == 0 then 1 else 256 * Pow256(i - 1)
  }

  /** The byte of a number at the given place, the least significant one at place 0. */
  function ByteAt(w: nat, i: nat): nat {
    w / Pow256(i) % 256
  }

  lemma {:induction false} DivideTwice(w: nat, p: nat)
    requires p > 0
    ensures w / 256 / p == w / (256 * p)
  {
    var q := w / 256 / p;
    var a, b := w % 256, w / 256 % p;
    assert w == 256 * (p * q + b) + a;
    assert w == (256 * p) * q + (256 * b + a);
    QuotientIs(w, 256 * p, q, 256 * b + a);
  }

  lemma {:induction false} AtLeastOnce(d: nat, k: nat)
    ensures k > 0 ==> d * k >= d
  {
    if k > 0 {
      var rest: nat := d * (k - 1);
      assert d * k == d + rest;
    }
  }

  lemma {:induction false} SmallMultiple(d: nat, k: int, x: int)
    requires d * k == x && 0 - d < x < d
    ensures k == 0
  {
    AtLeastOnce(d, if k > 0 then k else -k);
    assert d * (-k) == -(d * k);
  }

  lemma {:induction false} QuotientIs(w: nat, d: nat, q: nat, r: nat)
    requires d > 0 && w == d * q + r && r < d
    ensures w / d == q
  {
    var q', r' := w / d, w % d;
    assert w == d * q' + r';
    assert d * (q - q') == r' - r;
    SmallMultiple(d, q - q', r' - r);
  }

  lemma {:induction false} BytesAreInPlace(w: nat, n: nat, i: nat)
    requires i < n
    ensures BytesOf(w, n)[i] == ByteAt(w, i)
  {
    if i > 0 {
      BytesAreInPlace(w / 256, n - 1, i - 1);
      DivideTwice(w, Pow256(i - 1));
    }
  }

  lemma {:induction false} WordIsBounded(s: seq<nat>)
    requires forall i | 0 <= i < |s| :: s[i] < 256
    ensures WordOf(s) < Pow256(|s|)
  {
    if s != [] {
      WordIsBounded(s[1..]);
    }
  }

  /** A word made of bytes has them in their places, and no others. */
  lemma {:induction false} WordHoldsBytes(s: seq<nat>, i: nat)
    requires (forall j | 0 <= j < |s| :: s[j] < 256) && i < |s|
    ensures WordOf(s) < Pow256(|s|) && ByteAt(WordOf(s), i) == s[i]
  {
    WordIsBounded(s);
    BytesOfWord(s);
    BytesAreInPlace(WordOf(s), |s|, i);
  }

  /** Takes each byte from the test case where it is given and from the snapshot elsewhere. */
  method Merge(o: seq<nat>, v: seq<Option<nat>>) returns (r: seq<nat>)
    requires |o| == |v|
    ensures |r| == |o| && forall i | 0 <= i < |r| :: r[i] == if v[i].Some? then v[i].value else o[i]
  {
    r := [];
    for i := 0 to |o|
      invariant |r| == i && forall k | 0 <= k < i :: r[k] == if v[k].Some? then v[k].value else o[k]
    {
      if v[i].None? {
        r := r + [o[i]];
      } else {
        r := r + [v[i].value];
      }
    }
  }

  /**
   The value of a register of `n` bytes after loading a file: byte by byte the value given last in the
   file, or the snapshot's.
   */
  method LoadRegister(ls: seq<Line>, key: Key, snapshot: nat, n: nat) returns (w: Option<nat>)
    requires forall i | 0 <= i < |ls| :: LegalLine(ls[i])
    ensures var es := EntriesOf(ls);
            && (w.Some? <==> Agree(es) && First(es, key).Some? && First(es, key).value.size == n)
            && (w.Some? ==>
                  && w.value < Pow256(n)
                  && forall i | 0 <= i < n ::
                       ByteAt(w.value, i) ==
                       if Given(es, key, i).Some? then Given(es, key, i).value else ByteAt(snapshot, i))
  {
    var tc := LoadFuzzballTc(FileOf(ls));
    ghost var es := EntriesOf(ls);
    LoadOfFile(ls);
    LoadedExactly(es);
    if tc.None? || key !in tc.value || |tc.value[key].bytes| != n {
      return None;
    }
    assert Recorded(tc.value[key], es, key);
    var v := tc.value[key].bytes;
    var r := Merge(BytesOf(snapshot, n), v);
    forall i | 0 <= i < n
      ensures r[i] < 256
    {
      GivenIsByte(es, key, i);
    }
    WordIsBounded(r);
    forall i | 0 <= i < n
      ensures ByteAt(WordOf(r), i) == r[i] && BytesOf(snapshot, n)[i] == ByteAt(snapshot, i)
    {
      WordHoldsBytes(r, i);
      BytesAreInPlace(snapshot, n, i);
    }
    w := Some(WordOf(r));
  }

  lemma {:induction false} GivenIsByte(es: seq<Entry>, key: Key, i: nat)
    ensures Given(es, key, i).Some? ==> Given(es, key, i).value < 256
  {
    if es != [] {
      GivenIsByte(es[..|es| - 1], key, i);
    }
  }
}
