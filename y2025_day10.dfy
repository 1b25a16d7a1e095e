/** Factory machines: indicator lights toggled by buttons, and the parser of
    the machine descriptions `[.##.] (3) (1,3) {3,5,4,7}`. */
module Y2025Day10 {
  import opened Wrappers
  import opened Text
  import opened SeqUtil

  /** A machine: the wanted light pattern, the buttons (each the list of
      lights it toggles) and the joltage requirements. */
  datatype Machine = Machine(lights: seq<bool>, buttons: seq<seq<nat>>, joltages: seq<nat>)

  /** Buttons are `u8`, joltages `u32`. */
  const ButtonLimit: nat := 0x100
  const JoltageLimit: nat := 0x1_0000_0000

  // Pushing buttons

  /** Light `k` after pressing `buttons`: flipped once per occurrence of `k`. */
  function Flipped(lights: seq<bool>, buttons: seq<nat>): (r: seq<bool>)
    ensures |r| == |lights|
  {
    seq(|lights|, k requires 0 <= k < |lights| => lights[k] != (Count(buttons, k) % 2 == 1))
  }

  /** `pushbuttons_part1`: toggle the light of each button in turn. An index
      past the end of `lights` panics. */
  method PushButtons(buttons: seq<nat>, lights: array<bool>)
    requires forall i :: 0 <= i < |buttons| ==> buttons[i] < lights.Length
    modifies lights
    ensures lights[..] == Flipped(old(lights[..]), buttons)
  {
    ghost var start := lights[..];
    for i := 0 to |buttons|
      invariant lights[..] == Flipped(start, buttons[..i])
    {
      var b := buttons[i];
      assert buttons[..i + 1] == buttons[..i] + [b];
      FlippedSnoc(start, buttons[..i], b);
      lights[b] := !lights[b];
    }
    assert buttons[..|buttons|] == buttons;
  }

  /** One more press toggles exactly its own light. */
  lemma FlippedSnoc(lights: seq<bool>, buttons: seq<nat>, b: nat)
    requires b < |lights|
    ensures Flipped(lights, buttons + [b]) == Flipped(lights, buttons)[b := !Flipped(lights, buttons)[b]]
  {
    assert (buttons + [b])[..|buttons|] == buttons;
  }

  /** Pressing one list and then another is pressing both. */
  lemma {:induction false} FlippedAppend(lights: seq<bool>, a: seq<nat>, b: seq<nat>)
    ensures Flipped(Flipped(lights, a), b) == Flipped(lights, a + b)
  {
    CountAppend(a, b);
  }

  lemma {:induction false} CountAppend(a: seq<nat>, b: seq<nat>)
    ensures forall k :: Count(a + b, k) == Count(a, k) + Count(b, k)
  {
    assert multiset(a + b) == multiset(a) + multiset(b);
  }

  /** Pressing the same buttons twice restores the lights. */
  lemma PushTwiceRestores(lights: seq<bool>, buttons: seq<nat>)
    ensures Flipped(Flipped(lights, buttons), buttons) == lights
  {
    FlippedAppend(lights, buttons, buttons);
    CountAppend(buttons, buttons);
    forall k | 0 <= k < |lights| ensures Flipped(lights, buttons + buttons)[k] == lights[k] {
      assert Count(buttons + buttons, k) % 2 == 0;
    }
  }

  /** A light no button names keeps its state. */
  lemma FlippedOthers(lights: seq<bool>, buttons: seq<nat>, k: nat)
    requires k < |lights| && k !in buttons
    ensures Flipped(lights, buttons)[k] == lights[k]
  {
    assert multiset(buttons)[k] == 0;
  }

  // Parsing

  /** `parse_lights`: '.' is off, '#' is on, other characters are dropped. */
  function ParseLights(s: String): (r: seq<bool>)
    ensures |r| <= |s|
  {
    if s == [] then []
    else (if s[0] == '.' then [false] else if s[0] == '#' then [true] else []) + ParseLights(s[1..])
  }

  /** The light pattern as written in the input, without the brackets. */
  function ShowLights(lights: seq<bool>): (s: String)
    ensures |s| == |lights|
  {
    seq(|lights|, k requires 0 <= k < |lights| => if lights[k] then '#' else '.')
  }

  lemma {:induction false} ParseLightsAppend(a: String, b: String)
    ensures ParseLights(a + b) == ParseLights(a) + ParseLights(b)
  {
    if a == [] {
      assert a + b == b;
    } else {
      assert (a + b)[0] == a[0] && (a + b)[1..] == a[1..] + b;
      ParseLightsAppend(a[1..], b);
      var head := if a[0] == '.' then [false] else if a[0] == '#' then [true] else [];
      AppendAssoc(head, ParseLights(a[1..]), ParseLights(b));
    }
  }

  /** Written lights parse back. */
  lemma {:induction false} ParseShowLights(lights: seq<bool>)
    ensures ParseLights(ShowLights(lights)) == lights
  {
    if lights != [] {
      ParseShowLights(lights[1..]);
      assert ShowLights(lights)[1..] == ShowLights(lights[1..]);
    }
  }

  /** The brackets of `[.##.]` are dropped. */
  lemma ParseBracketedLights(lights: seq<bool>)
    ensures ParseLights("[" + ShowLights(lights) + "]") == lights
  {
    ParseLightsAppend("[" + ShowLights(lights), "]");
    ParseLightsAppend("[", ShowLights(lights));
    ParseShowLights(lights);
    assert ParseLights("]") == [] by {
      assert "]"[1..] == [];
    }
    assert ParseLights("[") == [] by {
      assert "["[1..] == [];
    }
  }

  /** `parse_numbers`: drop the first and last character, split at commas and
      parse each part; a word shorter than two characters panics on the slice. */
  function ParseNumbers(s: String, limit: nat): (r: Option<seq<nat>>)
    ensures r.Some? ==> |s| >= 2 && |r.value| == |Split(s[1..|s| - 1], ',')|
    ensures r.Some? ==> forall k :: 0 <= k < |r.value| ==> r.value[k] < limit
  {
    if |s| < 2 then None
    else MapAll(Split(s[1..|s| - 1], ','), t => ParseBelow(t, limit))
  }

  /** The numbers as written, `open` + `n0,n1,…` + `close`. */
  function ShowNumbers(open: char, nums: seq<nat>, close: char): String {
    [open] + Join(Texts(nums), ",") + [close]
  }

  /** Written numbers in range parse back, whatever the brackets. */
  lemma ParseShowNumbers(open: char, nums: seq<nat>, close: char, limit: nat)
    requires |nums| >= 1
    requires forall k :: 0 <= k < |nums| ==> nums[k] < limit
    ensures ParseNumbers(ShowNumbers(open, nums, close), limit) == Some(nums)
  {
    var texts := Texts(nums);
    var s := ShowNumbers(open, nums, close);
    assert s[1..|s| - 1] == Join(texts, ",");
    forall k | 0 <= k < |texts| ensures ',' !in texts[k] {
      DigitsAvoid(texts[k], ',');
    }
    SplitJoin(texts, ',');
    var r := ParseNumbers(s, limit);
    forall k | 0 <= k < |texts| ensures ParseBelow(texts[k], limit) == Some(nums[k]) {
      ParseNatToText(nums[k]);
    }
    assert r.Some?;
    assert r.value == nums;
  }

  /** The machine before any word: no lights, buttons or joltages. */
  const Empty := Machine([], [], [])

  /** The words of one line from `parsed` on: `[` sets the lights, `(` adds a
      button, `{` sets the joltages, and any other word ends the line. None
      when a number does not parse. */
  function MachineFrom(parsed: Machine, words: seq<String>): Option<Machine>
    decreases |words|
  {
    if words == [] then Some(parsed)
    else
      var w := words[0];
      if w != [] && w[0] == '[' then
        MachineFrom(parsed.(lights := ParseLights(w)), words[1..])
      else if w != [] && w[0] == '(' then
        match ParseNumbers(w, ButtonLimit)
        case None => None
        case Some(b) => MachineFrom(parsed.(buttons := parsed.buttons + [b]), words[1..])
      else if w != [] && w[0] == '{' then
        match ParseNumbers(w, JoltageLimit)
        case None => None
        case Some(j) => MachineFrom(parsed.(joltages := j), words[1..])
      else Some(parsed)
  }

  /** The machine of one line. */
  function ParseLine(line: String): Option<Machine> {
    MachineFrom(Empty, SplitWhitespace(line))
  }

  /** `parse`: one machine per line. */
  function Parse(input: String): (r: Option<seq<Machine>>)
    ensures r.Some? <==> forall k :: 0 <= k < |Lines(input)| ==> ParseLine(Lines(input)[k]).Some?
    ensures r.Some? ==> (|r.value| == |Lines(input)|
      && forall k :: 0 <= k < |r.value| ==> ParseLine(Lines(input)[k]) == Some(r.value[k]))
  {
    MapAll(Lines(input), ParseLine)
  }

  /** The loop of `parse` over the words of one line, with its `break`. */
  method ParseMachine(line: String) returns (r: Option<Machine>)
    ensures r == ParseLine(line)
  {
    var words := SplitWhitespace(line);
    var parsed := Empty;
    var i := 0;
    while i < |words|
      invariant 0 <= i <= |words|
      invariant MachineFrom(parsed, words[i..]) == ParseLine(line)
    {
      var w := words[i];
      assert words[i..] == [w] + words[i + 1..];
      if w[0] == '[' {
        MachineFromLights(parsed, w, words[i + 1..]);
        parsed := parsed.(lights := ParseLights(w));
      } else if w[0] == '(' {
        var b := ParseNumbers(w, ButtonLimit);
        if b.None? {
          return None;
        }
        MachineFromButton(parsed, w, b.value, words[i + 1..]);
        parsed := parsed.(buttons := parsed.buttons + [b.value]);
      } else if w[0] == '{' {
        var j := ParseNumbers(w, JoltageLimit);
        if j.None? {
          return None;
        }
        MachineFromJoltages(parsed, w, j.value, words[i + 1..]);
        parsed := parsed.(joltages := j.value);
      } else {
        break;
      }
      i := i + 1;
    }
    return Some(parsed);
  }

  /** A word that is not lights, a button or joltages ends the line: what
      follows it is never looked at. */
  lemma {:induction false} MachineFromStops(parsed: Machine, before: seq<String>, w: String, after: seq<String>)
    requires w == [] || (w[0] != '[' && w[0] != '(' && w[0] != '{')
    ensures MachineFrom(parsed, before + [w] + after) == MachineFrom(parsed, before)
    decreases |before|
  {
    var words := before + [w] + after;
    if before == [] {
      assert words[0] == w;
    } else {
      assert words[0] == before[0];
      assert words[1..] == before[1..] + [w] + after;
      var v := before[0];
      if v != [] && v[0] == '[' {
        MachineFromStops(parsed.(lights := ParseLights(v)), before[1..], w, after);
      } else if v != [] && v[0] == '(' {
        match ParseNumbers(v, ButtonLimit)
        case None =>
        case Some(b) => MachineFromStops(parsed.(buttons := parsed.buttons + [b]), before[1..], w, after);
      } else if v != [] && v[0] == '{' {
        match ParseNumbers(v, JoltageLimit)
        case None =>
        case Some(j) => MachineFromStops(parsed.(joltages := j), before[1..], w, after);
      }
    }
  }

  /** A lights word replaces the lights. */
  lemma MachineFromLights(parsed: Machine, w: String, rest: seq<String>)
    requires w != [] && w[0] == '['
    ensures MachineFrom(parsed, [w] + rest) == MachineFrom(parsed.(lights := ParseLights(w)), rest)
  {
    assert ([w] + rest)[1..] == rest;
  }

  /** A button word adds its button. */
  lemma MachineFromButton(parsed: Machine, w: String, b: seq<nat>, rest: seq<String>)
    requires w != [] && w[0] == '(' && ParseNumbers(w, ButtonLimit) == Some(b)
    ensures MachineFrom(parsed, [w] + rest) == MachineFrom(parsed.(buttons := parsed.buttons + [b]), rest)
  {
    assert ([w] + rest)[1..] == rest;
  }

  /** A joltages word replaces the joltages. */
  lemma MachineFromJoltages(parsed: Machine, w: String, j: seq<nat>, rest: seq<String>)
    requires w != [] && w[0] == '{' && ParseNumbers(w, JoltageLimit) == Some(j)
    ensures MachineFrom(parsed, [w] + rest) == MachineFrom(parsed.(joltages := j), rest)
  {
    assert ([w] + rest)[1..] == rest;
  }

  /** The words describing a machine, as in the input. */
  function MachineWords(m: Machine): seq<String> {
    ["[" + ShowLights(m.lights) + "]"] + ButtonWords(m.buttons) + [ShowNumbers('{', m.joltages, '}')]
  }

  function ButtonWords(buttons: seq<seq<nat>>): (r: seq<String>)
    ensures |r| == |buttons|
    ensures forall k :: 0 <= k < |r| ==> r[k] == ShowNumbers('(', buttons[k], ')')
  {
    seq(|buttons|, k requires 0 <= k < |buttons| => ShowNumbers('(', buttons[k], ')'))
  }

  /** A machine has non-empty buttons and joltages, all in range. */
  predicate Writable(m: Machine) {
    |m.joltages| >= 1
    && (forall k :: 0 <= k < |m.joltages| ==> m.joltages[k] < JoltageLimit)
    && forall k :: 0 <= k < |m.buttons| ==> ButtonWritable(m.buttons[k])
  }

  predicate ButtonWritable(b: seq<nat>) {
    |b| >= 1 && forall i :: 0 <= i < |b| ==> b[i] < ButtonLimit
  }

  lemma ButtonWordsCons(buttons: seq<seq<nat>>, rest: seq<String>)
    requires |buttons| >= 1
    ensures ButtonWords(buttons) + rest
      == [ShowNumbers('(', buttons[0], ')')] + (ButtonWords(buttons[1..]) + rest)
  {
    assert ButtonWords(buttons) == [ShowNumbers('(', buttons[0], ')')] + ButtonWords(buttons[1..]);
  }

  /** One written button word adds its button. */
  lemma ButtonWordStep(parsed: Machine, b: seq<nat>, rest: seq<String>)
    requires ButtonWritable(b)
    ensures MachineFrom(parsed, [ShowNumbers('(', b, ')')] + rest)
      == MachineFrom(parsed.(buttons := parsed.buttons + [b]), rest)
  {
    ParseShowNumbers('(', b, ')', ButtonLimit);
    MachineFromButton(parsed, ShowNumbers('(', b, ')'), b, rest);
  }

  /** The button words each add their button, in order. */
  lemma {:induction false} ButtonWordsParse(parsed: Machine, buttons: seq<seq<nat>>, rest: seq<String>)
    requires forall k :: 0 <= k < |buttons| ==> ButtonWritable(buttons[k])
    ensures MachineFrom(parsed, ButtonWords(buttons) + rest)
      == MachineFrom(parsed.(buttons := parsed.buttons + buttons), rest)
    decreases |buttons|
  {
    if buttons == [] {
      assert ButtonWords(buttons) + rest == rest;
      assert parsed.buttons + buttons == parsed.buttons;
    } else {
      var b, tail := buttons[0], buttons[1..];
      var words := ButtonWords(tail) + rest;
      var next := parsed.(buttons := parsed.buttons + [b]);
      ButtonWordsCons(buttons, rest);
      ButtonWordStep(parsed, b, words);
      ButtonWordsParse(next, tail, rest);
      assert buttons == [b] + tail;
      AppendAssoc(parsed.buttons, [b], tail);
      assert next.(buttons := next.buttons + tail) == parsed.(buttons := parsed.buttons + buttons);
    }
  }

  /** A machine written out word by word parses back. */
  lemma MachineRoundTrip(m: Machine)
    requires Writable(m)
    ensures MachineFrom(Empty, MachineWords(m)) == Some(m)
  {
    var first := "[" + ShowLights(m.lights) + "]";
    var last := ShowNumbers('{', m.joltages, '}');
    assert MachineWords(m) == [first] + (ButtonWords(m.buttons) + [last]);
    ParseBracketedLights(m.lights);
    MachineFromLights(Empty, first, ButtonWords(m.buttons) + [last]);
    var lit := Empty.(lights := m.lights);
    ButtonWordsParse(lit, m.buttons, [last]);
    var withButtons := lit.(buttons := m.buttons);
    assert lit.buttons + m.buttons == m.buttons;
    ParseShowNumbers('{', m.joltages, '}', JoltageLimit);
    MachineFromJoltages(withButtons, last, m.joltages, []);
    assert [last] + [] == [last];
    assert MachineFrom(withButtons.(joltages := m.joltages), []) == Some(m);
  }
}
