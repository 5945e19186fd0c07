/**
 The command-line parser of the benchmarks, a printer for it, and the proof that parsing
 undoes printing. Options are integers of some width or switches; each takes one of the
 spellings `--name=v`, `--name v`, `-x v` and `-xv` (a switch just `--name` or `-x`).
 */
module CommandLine {
  import opened Arith
  import opened Numerals
  import opened Wrappers

  datatype Kind = Switch | Signed(bits: nat) | Unsigned(bits: nat)

  datatype Opt = Opt(name: string, alias: string, kind: Kind)

  // What an option is bound to.
  datatype Target = Num(value: int) | On(set_: bool)

  datatype Error = Unexpected | Unknown | Duplicate | TakesNoValue | MissingValue | InvalidValue

  predicate InRange(kind: Kind, v: int) {
    match kind
    case Switch => false
    case Signed(bits) => bits > 0 && 0 <= v + Pow2(bits - 1) < Pow2(bits)
    case Unsigned(bits) => 0 <= v < Pow2(bits)
  }

  predicate IsInteger(kind: Kind) {
    kind.Unsigned? || (kind.Signed? && kind.bits > 0)
  }

  // The integer kinds are those that have a value.
  lemma IntegerIff(kind: Kind)
    ensures IsInteger(kind) <==> exists v: int :: InRange(kind, v)
  {
    assert IsInteger(kind) ==> InRange(kind, 0);
  }

  // A default is cast to the type of its target: it wraps around.
  function Cast(kind: Kind, v: int): int
    requires IsInteger(kind)
  {
    match kind
    case Unsigned(bits) => v % Pow2(bits)
    case Signed(bits) =>
      var u := v % Pow2(bits);
      if u < Pow2(bits - 1) then u else u - Pow2(bits)
  }

  // So a target starts in range, and with the default itself exactly when that is in range.
  lemma CastIff(kind: Kind, v: int)
    requires IsInteger(kind)
    ensures InRange(kind, Cast(kind, v))
    ensures Cast(kind, v) == v <==> InRange(kind, v)
  {
    var n := Pow2(kind.bits);
    if 0 <= v < n {
      DivModUnique(0, v, v, n);
    } else if -n <= v < 0 {
      DivModUnique(-1, v + n, v, n);
    }
  }

  // ---- Numbers

  predicate IsSign(c: char) { c == '+' || c == '-' }

  // find_first_not_of("+-")
  function Signs(text: string): (n: nat)
    ensures n <= |text|
  {
    if text != [] && IsSign(text[0]) then 1 + Signs(text[1..]) else 0
  }

  predicate IsDecimal(text: string) {
    Signs(text) < |text| && Signs(text) <= 1 && AllDigits(text[Signs(text)..])
  }

  function DecimalValue(text: string): int
    requires IsDecimal(text)
  {
    var m: int := Magnitude(text[Signs(text)..]);
    if text[0] == '-' then -m else m
  }

  // The conversion of an option's text: the value, or a refusal.
  function Convert(kind: Kind, text: string): Option<int> {
    if !IsDecimal(text) then None
    else if kind.Unsigned? && text[0] == '-' then None
    else if InRange(kind, DecimalValue(text)) then Some(DecimalValue(text))
    else None
  }

  lemma DecimalShape(v: int)
    ensures var text := Decimal(v);
            && IsDecimal(text) && DecimalValue(text) == v
            && (text[0] == '-' <==> v < 0) && !LongStart(text)
  {
    var n: nat := if v < 0 then -v else v;
    DigitsValue(n);
    DigitsShape(Digits(n));
    if v < 0 {
      SignedShape(Digits(n));
    }
  }

  lemma DigitsShape(digits: string)
    requires AllDigits(digits) && digits != []
    ensures Signs(digits) == 0 && digits[0..] == digits && digits[0] != '-' && !LongStart(digits)
  {
    assert IsDigit(digits[0]);
    assert |digits| >= 2 ==> digits[..2][0] == digits[0];
  }

  lemma SignedShape(digits: string)
    requires AllDigits(digits) && digits != []
    ensures var text := "-" + digits;
            Signs(text) == 1 && text[1..] == digits && text[0] == '-' && !LongStart(text)
  {
    var text := "-" + digits;
    DigitsShape(digits);
    assert text[1..] == digits;
    assert text[..2][1] == digits[0];
  }

  // The ranges of the types the programs use, in figures.
  lemma RangesInFigures(v: int)
    ensures !InRange(Switch, v)
    ensures InRange(Unsigned(32), v) <==> 0 <= v <= 4294967295
    ensures InRange(Unsigned(64), v) <==> 0 <= v <= 18446744073709551615
    ensures InRange(Signed(32), v) <==> -2147483648 <= v <= 2147483647
    ensures InRange(Signed(64), v) <==> -9223372036854775808 <= v <= 9223372036854775807
  {
    assert Pow2(8) == 256;
    assert Pow2(16) == 0x1_0000;
    assert Pow2(24) == 0x100_0000;
    assert Pow2(31) == 0x8000_0000;
    assert Pow2(32) == 0x1_0000_0000;
    assert Pow2(40) == 0x100_0000_0000;
    assert Pow2(48) == 0x1_0000_0000_0000;
    assert Pow2(56) == 0x100_0000_0000_0000;
    assert Pow2(63) == 0x8000_0000_0000_0000;
  }

  predicate AllZeros(text: string) {
    forall k :: 0 <= k < |text| ==> text[k] == '0'
  }

  // The text is a sign or none, any zeros, and the digits of v without its sign.
  ghost predicate Writes(text: string, sign: string, zeros: string, v: int) {
    && text == sign + (zeros + Digits(if v < 0 then -v else v))
    && AllZeros(zeros)
    && (sign == "" || sign == "+" ==> v >= 0)
    && (sign == "-" ==> v <= 0)
  }

  ghost predicate IsNumeral(kind: Kind, text: string, v: int) {
    exists sign, zeros ::
      (sign == "" || sign == "+" || (sign == "-" && !kind.Unsigned?)) && Writes(text, sign, zeros, v)
  }

  // Digits are zeros before the digits of what they stand for.
  lemma {:induction false} DigitsSplit(text: string) returns (zeros: string)
    requires AllDigits(text) && text != []
    ensures AllZeros(zeros) && text == zeros + Digits(Magnitude(text))
  {
    var n := |text| - 1;
    var front, last := text[..n], text[n];
    var m, d := Magnitude(front), (last as int) - ('0' as int);
    assert IsDigit(last);
    assert Magnitude(text) == m * 10 + d;
    DigitsStep(m, d, last);
    if m == 0 {
      zeros := front;
      ZeroMagnitude(front);
    } else {
      zeros := DigitsSplit(front);
    }
    assert text == front + [last];
  }

  lemma DigitsStep(m: nat, d: nat, last: char)
    requires IsDigit(last) && d == (last as int) - ('0' as int)
    ensures Digits(m * 10 + d) == (if m == 0 then [] else Digits(m)) + [last]
  {
    DivModUnique(m, d, m * 10 + d, 10);
    assert (d + ('0' as int)) as char == last;
  }

  lemma {:induction false} ZeroMagnitude(text: string)
    requires AllDigits(text)
    ensures Magnitude(text) == 0 <==> AllZeros(text)
  {
    if text != [] {
      var n := |text| - 1;
      ZeroMagnitude(text[..n]);
      assert IsDigit(text[n]);
      assert text == text[..n] + [text[n]];
    }
  }

  lemma {:induction false} ZerosMagnitude(zeros: string, digits: string)
    requires AllZeros(zeros) && AllDigits(digits)
    ensures AllDigits(zeros + digits) && Magnitude(zeros + digits) == Magnitude(digits)
  {
    if digits == [] {
      assert zeros + digits == zeros;
      assert AllDigits(zeros);
      ZeroMagnitude(zeros);
    } else {
      var n := |digits| - 1;
      ZerosMagnitude(zeros, digits[..n]);
      assert (zeros + digits)[..|zeros + digits| - 1] == zeros + digits[..n];
    }
  }

  // What is read as a decimal is exactly what writes a number.
  lemma DecimalIff(text: string, v: int)
    ensures IsDecimal(text) && DecimalValue(text) == v <==>
            exists sign, zeros :: (sign == "" || sign == "+" || sign == "-") && Writes(text, sign, zeros, v)
  {
    if IsDecimal(text) && DecimalValue(text) == v {
      var sign, zeros := DecimalWrites(text);
      assert Writes(text, sign, zeros, v);
    }
    if sign, zeros :| (sign == "" || sign == "+" || sign == "-") && Writes(text, sign, zeros, v) {
      WrittenIsDecimal(text, sign, zeros, v);
    }
  }

  lemma DecimalWrites(text: string) returns (sign: string, zeros: string)
    requires IsDecimal(text)
    ensures (sign == "" || sign == "+" || sign == "-") && Writes(text, sign, zeros, DecimalValue(text))
  {
    var digits := text[Signs(text)..];
    sign := text[..Signs(text)];
    zeros := DigitsSplit(digits);
    SignSplits(text);
    assert text == sign + digits;
  }

  lemma SignSplits(text: string)
    requires Signs(text) <= 1 && Signs(text) < |text|
    ensures var sign := text[..Signs(text)];
            if text[0] == '+' then sign == "+" else if text[0] == '-' then sign == "-" else sign == ""
  {
    if Signs(text) == 1 {
      assert IsSign(text[0]);
      assert text[..1] == [text[0]];
    }
  }

  lemma SignedText(sign: char, digits: string)
    requires IsSign(sign) && AllDigits(digits) && digits != []
    ensures var text := [sign] + digits;
            Signs(text) == 1 && text[0] == sign && text[1..] == digits
  {
    var text := [sign] + digits;
    DigitsShape(digits);
    assert text[1..] == digits;
  }

  lemma PaddedDigits(zeros: string, n: nat)
    requires AllZeros(zeros)
    ensures var digits := zeros + Digits(n); digits != [] && AllDigits(digits) && Magnitude(digits) == n
  {
    DigitsValue(n);
    ZerosMagnitude(zeros, Digits(n));
  }

  lemma WrittenIsDecimal(text: string, sign: string, zeros: string, v: int)
    requires (sign == "" || sign == "+" || sign == "-") && Writes(text, sign, zeros, v)
    ensures IsDecimal(text) && DecimalValue(text) == v
    ensures text[0] == '-' <==> sign == "-"
  {
    var n: nat := if v < 0 then -v else v;
    PaddedDigits(zeros, n);
    SignThenDigits(text, sign, zeros + Digits(n));
  }

  lemma SignThenDigits(text: string, sign: string, digits: string)
    requires (sign == "" || sign == "+" || sign == "-") && text == sign + digits
    requires AllDigits(digits) && digits != []
    ensures IsDecimal(text) && text[Signs(text)..] == digits
    ensures text[0] == '-' <==> sign == "-"
  {
    if sign == "" {
      DigitsShape(digits);
      assert text == digits;
    } else {
      SignedText(sign[0], digits);
      assert sign == [sign[0]];
    }
  }

  // For every text: it converts to v if and only if v is in range and the text writes v, the
  // minus sign being refused for unsigned types. Anything else is refused.
  lemma ConvertIff(kind: Kind, text: string, v: int)
    ensures Convert(kind, text) == Some(v) <==> InRange(kind, v) && IsNumeral(kind, text, v)
  {
    DecimalIff(text, v);
    if Convert(kind, text) == Some(v) {
      var sign, zeros :| (sign == "" || sign == "+" || sign == "-") && Writes(text, sign, zeros, v);
      WrittenIsDecimal(text, sign, zeros, v);
    }
    if IsNumeral(kind, text, v) {
      var sign, zeros :|
        (sign == "" || sign == "+" || (sign == "-" && !kind.Unsigned?)) && Writes(text, sign, zeros, v);
      WrittenIsDecimal(text, sign, zeros, v);
    }
  }

  // Printing in decimal and converting back gives the value exactly when it is in range.
  lemma ConvertDecimal(kind: Kind, v: int)
    ensures Convert(kind, Decimal(v)) == if InRange(kind, v) then Some(v) else None
    ensures Decimal(v) != [] && !LongStart(Decimal(v))
  {
    DecimalShape(v);
  }

  // ---- The parser

  function Find(s: string, c: char): (k: nat)
    ensures k <= |s|
  {
    if s == [] || s[0] == c then 0 else 1 + Find(s[1..], c)
  }

  predicate LongStart(arg: string) {
    |arg| >= 2 && arg[..2] == "--"
  }

  // The option an argument names: by name in the long form, by alias in the short one.
  function Lookup(table: seq<Opt>, longForm: bool, name: string): (k: nat)
    ensures k <= |table|
  {
    if table == [] then 0
    else if (if longForm then table[0].name else table[0].alias) == name then 0
    else 1 + Lookup(table[1..], longForm, name)
  }

  datatype State = State(seen: set<nat>, targets: seq<Target>)

  // One step of the parser: an error, or how many arguments were used and the new state.
  datatype Step = Stop(error: Error) | Used(count: nat, state: State)

  // The step for an argument that names the option at `index`, not seen before: its value is
  // attached to the argument or the next one, and a switch takes none.
  function Bind(table: seq<Opt>, args: seq<string>, index: nat, s: State): Step
    requires args != [] && |args[0]| >= 2 && |s.targets| == |table| && index < |table|
  {
    var arg := args[0];
    var longForm := LongStart(arg);
    var equal := Find(arg, '=');
    var seen := s.seen + {index};
    var attached := if longForm then equal < |arg| else |arg| > 2;
    if table[index].kind.Switch? then
      if attached then Stop(TakesNoValue) else Used(1, State(seen, s.targets[index := On(true)]))
    else if !attached && (|args| == 1 || LongStart(args[1])) then Stop(MissingValue)
    else
      var text := if !attached then args[1] else if longForm then arg[equal + 1..] else arg[2..];
      var v := Convert(table[index].kind, text);
      if v.None? then Stop(InvalidValue)
      else Used(if attached then 1 else 2, State(seen, s.targets[index := Num(v.value)]))
  }

  function ParseStep(table: seq<Opt>, args: seq<string>, s: State): Step
    requires args != [] && |s.targets| == |table|
  {
    var arg := args[0];
    if |arg| < 2 || arg[0] != '-' || arg == "--" then Stop(Unexpected)
    else
      var longForm, equal := LongStart(arg), Find(arg, '=');
      var name := if longForm then (if 2 <= equal then arg[2..equal] else []) else arg[1..2];
      var index := Lookup(table, longForm, name);
      if index == |table| then Stop(Unknown)
      else if index in s.seen then Stop(Duplicate)
      else Bind(table, args, index, s)
  }

  lemma StepAdvances(table: seq<Opt>, args: seq<string>, s: State)
    requires args != [] && |s.targets| == |table|
    ensures var step := ParseStep(table, args, s);
            step.Used? ==> 0 < step.count <= |args| && |step.state.targets| == |table|
  {
  }

  // The outcome of a whole parse: the bound values, and the error that ended it if any.
  // Values bound before an error stay bound.
  datatype Parsed = Parsed(error: Option<Error>, targets: seq<Target>)

  function ParseFrom(table: seq<Opt>, args: seq<string>, s: State): Parsed
    requires |s.targets| == |table|
    decreases |args|
  {
    if args == [] || args == ["--"] then Parsed(None, s.targets)
    else
      StepAdvances(table, args, s);
      var step := ParseStep(table, args, s);
      if step.Stop? then Parsed(Some(step.error), s.targets)
      else ParseFrom(table, args[step.count..], step.state)
  }

  // ---- The printer

  datatype Style = LongEqual | LongSeparate | ShortSeparate | ShortAttached

  // One occurrence of an option on the command line; a switch has no use for the text in
  // the separate styles.
  datatype Use = Use(index: nat, style: Style, text: string)

  function Words(table: seq<Opt>, u: Use): seq<string>
    requires u.index < |table|
  {
    var o := table[u.index];
    var separate := if o.kind.Switch? then [] else [u.text];
    match u.style
    case LongEqual => ["--" + o.name + "=" + u.text]
    case LongSeparate => ["--" + o.name] + separate
    case ShortSeparate => ["-" + o.alias] + separate
    case ShortAttached => ["-" + o.alias + u.text]
  }

  function Print(table: seq<Opt>, uses: seq<Use>): seq<string>
    requires forall k :: 0 <= k < |uses| ==> uses[k].index < |table|
  {
    if uses == [] then [] else Words(table, uses[0]) + Print(table, uses[1..])
  }

  // A table a caller may declare: distinct nonempty names without '=', and distinct
  // one-character aliases other than '-' where there is one.
  ghost predicate TableOk(table: seq<Opt>) {
    && (forall k :: 0 <= k < |table| ==>
          table[k].name != [] && '=' !in table[k].name && |table[k].alias| <= 1 && table[k].alias != "-")
    && (forall j, k :: 0 <= j < k < |table| ==>
          table[j].name != table[k].name && (table[j].alias != [] ==> table[j].alias != table[k].alias))
  }

  // An occurrence that is one of the spellings: the short ones need an alias, the attached
  // one a text, and a separate value must not look like a long option.
  predicate Spelled(table: seq<Opt>, u: Use) {
    && u.index < |table|
    && (u.style.ShortSeparate? || u.style.ShortAttached? ==> |table[u.index].alias| == 1)
    && (u.style.ShortAttached? ==> u.text != [])
    && (u.style.LongSeparate? || u.style.ShortSeparate? ==> !table[u.index].kind.Switch? ==> !LongStart(u.text))
  }

  // Its value is acceptable: none attached to a switch, one of the right range otherwise.
  predicate Acceptable(table: seq<Opt>, u: Use)
    requires u.index < |table|
  {
    if table[u.index].kind.Switch? then u.style.LongSeparate? || u.style.ShortSeparate?
    else Convert(table[u.index].kind, u.text).Some?
  }

  function Meaning(table: seq<Opt>, u: Use): Target
    requires u.index < |table| && Acceptable(table, u)
  {
    if table[u.index].kind.Switch? then On(true) else Num(Convert(table[u.index].kind, u.text).value)
  }

  lemma {:induction false} FindAfter(name: string, rest: string, c: char)
    requires c !in name
    ensures Find(name + [c] + rest, c) == |name|
    ensures Find(name, c) == |name|
  {
    if name != [] {
      assert name == [name[0]] + name[1..];
      FindAfter(name[1..], rest, c);
      assert (name + [c] + rest)[1..] == name[1..] + [c] + rest;
    }
  }

  lemma {:induction false} LookupNamed(table: seq<Opt>, longForm: bool, index: nat)
    requires TableOk(table) && index < |table| && (longForm || table[index].alias != [])
    ensures Lookup(table, longForm, if longForm then table[index].name else table[index].alias) == index
  {
    if index > 0 {
      var rest := table[1..];
      assert forall j, k :: 0 <= j < k < |rest| ==> rest[j] == table[j + 1] && rest[k] == table[k + 1];
      LookupNamed(rest, longForm, index - 1);
    }
  }

  // The step a well-spelled occurrence leads to.
  ghost predicate ReadAs(table: seq<Opt>, u: Use, s: State, step: Step)
    requires u.index < |table| && |s.targets| == |table|
  {
    if u.index in s.seen then step == Stop(Duplicate)
    else if !Acceptable(table, u) then
      step == Stop(if table[u.index].kind.Switch? then TakesNoValue else InvalidValue)
    else step == Used(|Words(table, u)|, State(s.seen + {u.index}, s.targets[u.index := Meaning(table, u)]))
  }

  // The parser reads back one printed occurrence, whatever follows it.
  lemma ReadsBack(table: seq<Opt>, u: Use, rest: seq<string>, s: State)
    requires TableOk(table) && Spelled(table, u) && |s.targets| == |table|
    ensures ReadAs(table, u, s, ParseStep(table, Words(table, u) + rest, s))
  {
    if u.style.LongEqual? || u.style.LongSeparate? {
      ReadsBackLong(table, u, rest, s);
    } else {
      ReadsBackShort(table, u, rest, s);
    }
  }

  lemma ReadsBackLong(table: seq<Opt>, u: Use, rest: seq<string>, s: State)
    requires TableOk(table) && Spelled(table, u) && |s.targets| == |table|
    requires u.style.LongEqual? || u.style.LongSeparate?
    ensures ReadAs(table, u, s, ParseStep(table, Words(table, u) + rest, s))
  {
    var o, args := table[u.index], Words(table, u) + rest;
    LookupNamed(table, true, u.index);
    assert args[0] == Words(table, u)[0];
    if u.style.LongEqual? {
      LongEqualParts(o.name, u.text);
    } else {
      LongParts(o.name);
      assert !o.kind.Switch? ==> args[1] == u.text;
    }
  }

  lemma ReadsBackShort(table: seq<Opt>, u: Use, rest: seq<string>, s: State)
    requires TableOk(table) && Spelled(table, u) && |s.targets| == |table|
    requires u.style.ShortSeparate? || u.style.ShortAttached?
    ensures ReadAs(table, u, s, ParseStep(table, Words(table, u) + rest, s))
  {
    var o, args := table[u.index], Words(table, u) + rest;
    LookupNamed(table, false, u.index);
    assert args[0] == Words(table, u)[0];
    if u.style.ShortSeparate? {
      ShortParts(o.alias, []);
      assert !o.kind.Switch? ==> args[1] == u.text;
    } else {
      ShortParts(o.alias, u.text);
    }
  }

  lemma LongEqualParts(name: string, text: string)
    requires '=' !in name && name != []
    ensures var arg := "--" + name + "=" + text;
            && LongStart(arg) && |arg| >= 2 && arg[0] == '-' && arg != "--"
            && Find(arg, '=') == |name| + 2 < |arg|
            && arg[2..|name| + 2] == name && arg[|name| + 3..] == text
  {
    var arg := "--" + name + "=" + text;
    FindAfter("--" + name, text, '=');
    assert arg == ("--" + name) + ['='] + text;
    assert arg[..2] == "--";
  }

  lemma LongParts(name: string)
    requires '=' !in name && name != []
    ensures var arg := "--" + name;
            && LongStart(arg) && |arg| >= 2 && arg[0] == '-' && arg != "--"
            && Find(arg, '=') == |arg| && arg[2..|arg|] == name
  {
    FindAfter("--" + name, [], '=');
    assert ("--" + name)[..2] == "--";
  }

  lemma ShortParts(alias: string, text: string)
    requires |alias| == 1 && alias != "-"
    ensures var arg := "-" + alias + text;
            && !LongStart(arg) && |arg| >= 2 && arg[0] == '-' && arg != "--"
            && arg[1..2] == alias && arg[2..] == text
            && (text == [] ==> arg == "-" + alias)
  {
    var arg := "-" + alias + text;
    assert arg[1] == alias[0] != '-';
    assert arg[..2][1] != "--"[1];
  }

  // An option that takes a value, with none attached, misses it exactly when the line ends there
  // or the next argument begins with two dashes.
  lemma MissingIff(table: seq<Opt>, index: nat, longForm: bool, rest: seq<string>, s: State)
    requires TableOk(table) && |s.targets| == |table| && index < |table| && index !in s.seen
    requires !table[index].kind.Switch? && (longForm || table[index].alias != [])
    ensures var arg := if longForm then "--" + table[index].name else "-" + table[index].alias;
            ParseStep(table, [arg] + rest, s) == Stop(MissingValue) <==> rest == [] || "--" <= rest[0]
  {
    var o := table[index];
    LookupNamed(table, longForm, index);
    if longForm {
      LongParts(o.name);
    } else {
      ShortParts(o.alias, []);
    }
  }

  lemma {:induction false} LookupNothing(table: seq<Opt>, longForm: bool, name: string)
    requires forall k :: 0 <= k < |table| ==> (if longForm then table[k].name else table[k].alias) != name
    ensures Lookup(table, longForm, name) == |table|
  {
    if table != [] {
      LookupNothing(table[1..], longForm, name);
    }
  }

  // A name or a letter that no option has.
  lemma UnknownIsReported(table: seq<Opt>, name: string, text: string, rest: seq<string>, s: State)
    requires |s.targets| == |table| && name != [] && '=' !in name
    ensures (forall k :: 0 <= k < |table| ==> table[k].name != name) ==>
      && ParseStep(table, ["--" + name] + rest, s) == Stop(Unknown)
      && ParseStep(table, ["--" + name + "=" + text] + rest, s) == Stop(Unknown)
    ensures |name| == 1 && name != "-" && (forall k :: 0 <= k < |table| ==> table[k].alias != name) ==>
      ParseStep(table, ["-" + name + text] + rest, s) == Stop(Unknown)
  {
    LongParts(name);
    LongEqualParts(name, text);
    if forall k :: 0 <= k < |table| ==> table[k].name != name {
      LookupNothing(table, true, name);
    }
    if |name| == 1 && name != "-" && forall k :: 0 <= k < |table| ==> table[k].alias != name {
      ShortParts(name, text);
      LookupNothing(table, false, name);
    }
  }

  // An argument that is no option: too short, without a dash, or "--" with something after it.
  lemma UnexpectedIff(table: seq<Opt>, args: seq<string>, s: State)
    requires args != [] && |s.targets| == |table|
    ensures ParseStep(table, args, s) == Stop(Unexpected)
            <==> args[0] == "" || args[0] == "-" || args[0] == "--" || args[0][0] != '-'
  {
    var arg := args[0];
    if |arg| == 1 && arg[0] == '-' {
      assert arg == "-";
    }
  }

  // ---- Parsing what was printed

  predicate AllSpelled(table: seq<Opt>, uses: seq<Use>) {
    forall k :: 0 <= k < |uses| ==> Spelled(table, uses[k])
  }

  // Every occurrence is acceptable, and none names an option used before or seen already.
  ghost predicate Accepts(table: seq<Opt>, uses: seq<Use>, seen: set<nat>)
    requires AllSpelled(table, uses)
  {
    && (forall k :: 0 <= k < |uses| ==> Acceptable(table, uses[k]) && uses[k].index !in seen)
    && (forall j, k :: 0 <= j < k < |uses| ==> uses[j].index != uses[k].index)
  }

  // The target of option `index` is what its occurrence says, or as it was without one.
  ghost predicate BoundTo(table: seq<Opt>, uses: seq<Use>, before: seq<Target>, after: seq<Target>, index: nat)
    requires AllSpelled(table, uses) && |before| == |after| == |table| && index < |table|
  {
    && (forall k :: 0 <= k < |uses| && uses[k].index == index && Acceptable(table, uses[k]) ==>
          after[index] == Meaning(table, uses[k]))
    && ((forall k :: 0 <= k < |uses| ==> uses[k].index != index) ==> after[index] == before[index])
  }

  // A command line made of spelled occurrences, possibly followed by a final "--", is
  // accepted exactly when each is acceptable and no option occurs twice; every target then
  // has the value of its occurrence, or the value it had without one.
  lemma {:induction false} ParsePrinted(table: seq<Opt>, uses: seq<Use>, tail: seq<string>, s: State)
    requires TableOk(table) && AllSpelled(table, uses) && |s.targets| == |table|
    requires tail == [] || tail == ["--"]
    ensures var parsed := ParseFrom(table, Print(table, uses) + tail, s);
            && |parsed.targets| == |table|
            && (parsed.error.None? <==> Accepts(table, uses, s.seen))
            && (parsed.error.None? ==>
                  forall i: nat :: i < |table| ==> BoundTo(table, uses, s.targets, parsed.targets, i))
    decreases |uses|
  {
    if uses == [] {
      assert Print(table, uses) + tail == tail;
    } else {
      var u, rest := uses[0], uses[1..];
      assert uses == [u] + rest;
      var line := Print(table, rest) + tail;
      assert Print(table, uses) + tail == Words(table, u) + line;
      ReadsBack(table, u, line, s);
      NotTheEnd(table, u, line);
      var step := ParseStep(table, Words(table, u) + line, s);
      if step.Used? {
        assert (Words(table, u) + line)[step.count..] == line;
        ParsePrinted(table, rest, tail, step.state);
        AcceptsCons(table, uses, s.seen);
        var parsed := ParseFrom(table, line, step.state);
        if parsed.error.None? {
          forall i: nat | i < |table|
            ensures BoundTo(table, uses, s.targets, parsed.targets, i)
          {
            assert BoundTo(table, rest, step.state.targets, parsed.targets, i);
          }
        }
      }
    }
  }

  lemma NotTheEnd(table: seq<Opt>, u: Use, line: seq<string>)
    requires TableOk(table) && Spelled(table, u)
    ensures Words(table, u) + line != [] && Words(table, u) + line != ["--"]
  {
    var o := table[u.index];
    assert (Words(table, u) + line)[0] == Words(table, u)[0];
    match u.style
    case LongEqual => LongEqualParts(o.name, u.text);
    case LongSeparate => LongParts(o.name);
    case ShortSeparate => ShortParts(o.alias, []);
    case ShortAttached => ShortParts(o.alias, u.text);
  }

  lemma AcceptsCons(table: seq<Opt>, uses: seq<Use>, seen: set<nat>)
    requires AllSpelled(table, uses) && uses != []
    requires Acceptable(table, uses[0]) && uses[0].index !in seen
    ensures Accepts(table, uses, seen) <==> Accepts(table, uses[1..], seen + {uses[0].index})
  {
    var rest := uses[1..];
    if Accepts(table, rest, seen + {uses[0].index}) {
      forall j, k | 0 <= j < k < |uses|
        ensures uses[j].index != uses[k].index
      {
        assert uses[k] == rest[k - 1];
        assert j > 0 ==> uses[j] == rest[j - 1];
      }
      forall k | 0 <= k < |uses|
        ensures Acceptable(table, uses[k]) && uses[k].index !in seen
      {
        assert k > 0 ==> uses[k] == rest[k - 1];
      }
    }
    if Accepts(table, uses, seen) {
      forall k | 0 <= k < |rest|
        ensures Acceptable(table, rest[k]) && rest[k].index !in seen + {uses[0].index}
      {
        assert rest[k] == uses[k + 1];
      }
      forall j, k | 0 <= j < k < |rest|
        ensures rest[j].index != rest[k].index
      {
        assert rest[j] == uses[j + 1] && rest[k] == uses[k + 1];
      }
    }
  }

  lemma {:induction false} FindSplits(s: string, c: char)
    ensures var k := Find(s, c);
            c !in s[..k] && (k < |s| ==> s[k] == c && s == s[..k] + [c] + s[k + 1..])
  {
    if s != [] && s[0] != c {
      FindSplits(s[1..], c);
      var k := Find(s, c);
      assert s[..k] == [s[0]] + s[1..][..k - 1];
    }
  }

  lemma {:induction false} LookupFinds(table: seq<Opt>, longForm: bool, name: string)
    ensures var k := Lookup(table, longForm, name);
            k < |table| ==> (if longForm then table[k].name else table[k].alias) == name
  {
    if table != [] {
      LookupFinds(table[1..], longForm, name);
    }
  }

  // A step that uses arguments has used exactly the words of one spelled occurrence.
  lemma UsedIsSpelled(table: seq<Opt>, args: seq<string>, s: State) returns (u: Use)
    requires args != [] && |s.targets| == |table| && ParseStep(table, args, s).Used?
    ensures var step := ParseStep(table, args, s);
            && Spelled(table, u) && step.count <= |args| && Words(table, u) == args[..step.count]
  {
    if LongStart(args[0]) {
      u := UsedLong(table, args, s);
    } else {
      u := UsedShort(table, args, s);
    }
  }

  lemma UsedLong(table: seq<Opt>, args: seq<string>, s: State) returns (u: Use)
    requires args != [] && |s.targets| == |table| && ParseStep(table, args, s).Used? && LongStart(args[0])
    ensures var step := ParseStep(table, args, s);
            && Spelled(table, u) && step.count <= |args| && Words(table, u) == args[..step.count]
  {
    var arg := args[0];
    var equal := Find(arg, '=');
    FindSplits(arg, '=');
    assert arg[0] == arg[..2][0] == '-' && arg[1] == arg[..2][1] == '-';
    assert 2 <= equal;
    var name := arg[2..equal];
    var index := Lookup(table, true, name);
    LookupFinds(table, true, name);
    LongArgument(arg, equal);
    assert args[..1] == [arg] && (|args| >= 2 ==> args[..2] == [arg, args[1]]);
    if equal < |arg| {
      u := Use(index, LongEqual, arg[equal + 1..]);
    } else {
      u := Use(index, LongSeparate, if table[index].kind.Switch? then [] else args[1]);
    }
  }

  lemma LongArgument(arg: string, equal: nat)
    requires 2 <= equal <= |arg| && arg[0] == '-' && arg[1] == '-'
    ensures equal == |arg| ==> arg == "--" + arg[2..equal]
    ensures equal < |arg| && arg[equal] == '=' ==> arg == "--" + arg[2..equal] + "=" + arg[equal + 1..]
  {
  }

  lemma UsedShort(table: seq<Opt>, args: seq<string>, s: State) returns (u: Use)
    requires args != [] && |s.targets| == |table| && ParseStep(table, args, s).Used? && !LongStart(args[0])
    ensures var step := ParseStep(table, args, s);
            && Spelled(table, u) && step.count <= |args| && Words(table, u) == args[..step.count]
  {
    var arg := args[0];
    var index := Lookup(table, false, arg[1..2]);
    LookupFinds(table, false, arg[1..2]);
    assert arg == "-" + arg[1..2] + arg[2..];
    assert args[..1] == [arg] && (|args| >= 2 ==> args[..2] == [arg, args[1]]);
    if |arg| > 2 {
      u := Use(index, ShortAttached, arg[2..]);
    } else {
      u := Use(index, ShortSeparate, if table[index].kind.Switch? then [] else args[1]);
      assert arg == "-" + table[index].alias;
    }
  }

  lemma {:induction false} PrintCons(table: seq<Opt>, u: Use, rest: seq<Use>)
    requires u.index < |table| && forall k :: 0 <= k < |rest| ==> rest[k].index < |table|
    ensures Print(table, [u] + rest) == Words(table, u) + Print(table, rest)
  {
    assert ([u] + rest)[1..] == rest;
  }

  // Nothing else is accepted: a command line the parser accepts is a sequence of spelled
  // occurrences, possibly followed by "--".
  lemma {:induction false} AcceptedIsPrinted(table: seq<Opt>, args: seq<string>, s: State)
    returns (uses: seq<Use>, tail: seq<string>)
    requires |s.targets| == |table| && ParseFrom(table, args, s).error.None?
    ensures AllSpelled(table, uses) && (tail == [] || tail == ["--"])
    ensures args == Print(table, uses) + tail
    decreases |args|
  {
    if args == [] || args == ["--"] {
      uses, tail := [], args;
    } else {
      var u, count, state := NextUse(table, args, s);
      var rest;
      rest, tail := AcceptedIsPrinted(table, args[count..], state);
      uses := [u] + rest;
      PrintCons(table, u, rest);
      assert args == args[..count] + args[count..];
    }
  }

  lemma NextUse(table: seq<Opt>, args: seq<string>, s: State) returns (u: Use, count: nat, state: State)
    requires |s.targets| == |table| && ParseFrom(table, args, s).error.None?
    requires args != [] && args != ["--"]
    ensures 0 < count <= |args| && |state.targets| == |table|
    ensures Spelled(table, u) && Words(table, u) == args[..count]
    ensures ParseFrom(table, args[count..], state) == ParseFrom(table, args, s)
  {
    var step := ParseStep(table, args, s);
    StepAdvances(table, args, s);
    u := UsedIsSpelled(table, args, s);
    count, state := step.count, step.state;
  }

  // What the occurrence binds its option to, in terms of its text: a switch has none, a value
  // is written in decimal and in range.
  ghost predicate Binds(table: seq<Opt>, u: Use, target: Target)
    requires u.index < |table|
  {
    var kind := table[u.index].kind;
    if kind.Switch? then (u.style.LongSeparate? || u.style.ShortSeparate?) && target == On(true)
    else target.Num? && InRange(kind, target.value) && IsNumeral(kind, u.text, target.value)
  }

  ghost predicate Bindable(table: seq<Opt>, u: Use)
    requires u.index < |table|
  {
    exists target :: Binds(table, u, target)
  }

  lemma AcceptableIff(table: seq<Opt>, u: Use)
    requires u.index < |table|
    ensures Acceptable(table, u) <==> Bindable(table, u)
    ensures Acceptable(table, u) ==> Binds(table, u, Meaning(table, u))
  {
    var kind := table[u.index].kind;
    if !kind.Switch? && Acceptable(table, u) {
      ConvertIff(kind, u.text, Convert(kind, u.text).value);
    }
    assert Acceptable(table, u) ==> Binds(table, u, Meaning(table, u));
    if target :| Binds(table, u, target) {
      if !kind.Switch? {
        ConvertIff(kind, u.text, target.value);
      }
    }
  }

  // The whole of what is accepted: a command line is, if and only if it is a sequence of
  // spelled occurrences, possibly followed by "--", no option twice, every value written in
  // decimal and in range; each target then is what its occurrence binds it to.
  ghost predicate IsLine(table: seq<Opt>, args: seq<string>, uses: seq<Use>, tail: seq<string>) {
    && AllSpelled(table, uses) && (tail == [] || tail == ["--"])
    && args == Print(table, uses) + tail
    && (forall j, k :: 0 <= j < k < |uses| ==> uses[j].index != uses[k].index)
    && (forall k :: 0 <= k < |uses| ==> Bindable(table, uses[k]))
  }

  lemma AcceptedIff(table: seq<Opt>, args: seq<string>, defaults: seq<Target>)
    requires TableOk(table) && |defaults| == |table|
    ensures ParseFrom(table, args, State({}, defaults)).error.None?
            <==> exists uses, tail :: IsLine(table, args, uses, tail)
  {
    if ParseFrom(table, args, State({}, defaults)).error.None? {
      var uses, tail := AcceptedIsLine(table, args, defaults);
      assert IsLine(table, args, uses, tail);
    }
    if uses, tail :| IsLine(table, args, uses, tail) {
      LineBinds(table, args, uses, tail, defaults);
    }
  }

  lemma AcceptedIsLine(table: seq<Opt>, args: seq<string>, defaults: seq<Target>)
    returns (uses: seq<Use>, tail: seq<string>)
    requires TableOk(table) && |defaults| == |table|
    requires ParseFrom(table, args, State({}, defaults)).error.None?
    ensures IsLine(table, args, uses, tail)
  {
    uses, tail := AcceptedIsPrinted(table, args, State({}, defaults));
    ParsePrinted(table, uses, tail, State({}, defaults));
    AcceptsBindable(table, uses, {});
  }

  lemma AcceptsBindable(table: seq<Opt>, uses: seq<Use>, seen: set<nat>)
    requires AllSpelled(table, uses) && Accepts(table, uses, seen)
    ensures forall k :: 0 <= k < |uses| ==> Bindable(table, uses[k])
    ensures forall j, k :: 0 <= j < k < |uses| ==> uses[j].index != uses[k].index
  {
    forall k | 0 <= k < |uses|
      ensures Bindable(table, uses[k])
    {
      AcceptableIff(table, uses[k]);
    }
  }

  lemma LineBinds(table: seq<Opt>, args: seq<string>, uses: seq<Use>, tail: seq<string>, defaults: seq<Target>)
    requires TableOk(table) && |defaults| == |table| && IsLine(table, args, uses, tail)
    ensures var parsed := ParseFrom(table, args, State({}, defaults));
            && parsed.error.None? && |parsed.targets| == |table|
            && (forall k :: 0 <= k < |uses| ==> Binds(table, uses[k], parsed.targets[uses[k].index]))
            && (forall i: nat :: i < |table| && (forall k :: 0 <= k < |uses| ==> uses[k].index != i) ==>
                  parsed.targets[i] == defaults[i])
  {
    forall k | 0 <= k < |uses|
      ensures Acceptable(table, uses[k]) && Binds(table, uses[k], Meaning(table, uses[k]))
    {
      AcceptableIff(table, uses[k]);
    }
    ParsePrinted(table, uses, tail, State({}, defaults));
    var targets := ParseFrom(table, args, State({}, defaults)).targets;
    forall k | 0 <= k < |uses|
      ensures Binds(table, uses[k], targets[uses[k].index])
    {
      assert BoundTo(table, uses, defaults, targets, uses[k].index);
    }
    forall i: nat | i < |table| && forall k :: 0 <= k < |uses| ==> uses[k].index != i
      ensures targets[i] == defaults[i]
    {
      assert BoundTo(table, uses, defaults, targets, i);
    }
  }

  // ---- Round trip and order

  datatype Setting = Setting(index: nat, style: Style, value: int)

  // A value printed in decimal; a switch is turned on by its separate styles.
  function Spell(x: Setting): Use {
    Use(x.index, x.style, Decimal(x.value))
  }

  ghost predicate Printable(table: seq<Opt>, x: Setting) {
    && x.index < |table|
    && (x.style.ShortSeparate? || x.style.ShortAttached? ==> |table[x.index].alias| == 1)
    && if table[x.index].kind.Switch? then x.style.LongSeparate? || x.style.ShortSeparate?
       else InRange(table[x.index].kind, x.value)
  }

  // What the target of a setting should hold.
  function Said(table: seq<Opt>, x: Setting): Target
    requires x.index < |table|
  {
    if table[x.index].kind.Switch? then On(true) else Num(x.value)
  }

  lemma SpellsIt(table: seq<Opt>, x: Setting)
    requires Printable(table, x)
    ensures Spelled(table, Spell(x)) && Acceptable(table, Spell(x)) && Meaning(table, Spell(x)) == Said(table, x)
  {
    ConvertDecimal(table[x.index].kind, x.value);
  }

  // ParsePrinted for a line with nothing after the occurrences.
  lemma PrintedParse(table: seq<Opt>, uses: seq<Use>, s: State)
    requires TableOk(table) && AllSpelled(table, uses) && |s.targets| == |table|
    ensures var parsed := ParseFrom(table, Print(table, uses), s);
            && |parsed.targets| == |table|
            && (parsed.error.None? <==> Accepts(table, uses, s.seen))
            && (parsed.error.None? ==>
                  forall i: nat :: i < |table| ==> BoundTo(table, uses, s.targets, parsed.targets, i))
  {
    assert Print(table, uses) + [] == Print(table, uses);
    ParsePrinted(table, uses, [], s);
  }

  // Parsing undoes printing: any settings without a repetition, in any mix of styles and any
  // order, come back as exactly those values, every other target keeping its default.
  lemma RoundTrip(table: seq<Opt>, settings: seq<Setting>, defaults: seq<Target>)
    requires TableOk(table) && |defaults| == |table|
    requires forall k :: 0 <= k < |settings| ==> Printable(table, settings[k])
    requires forall j, k :: 0 <= j < k < |settings| ==> settings[j].index != settings[k].index
    ensures var uses := seq(|settings|, k requires 0 <= k < |settings| => Spell(settings[k]));
            && AllSpelled(table, uses) && (forall k :: 0 <= k < |settings| ==> settings[k].index < |table|)
            && var parsed := ParseFrom(table, Print(table, uses), State({}, defaults));
               && parsed.error == None && |parsed.targets| == |table|
               && (forall k :: 0 <= k < |settings| ==>
                     parsed.targets[settings[k].index] == Said(table, settings[k]))
               && (forall i: nat :: i < |table| && (forall k :: 0 <= k < |settings| ==> settings[k].index != i) ==>
                     parsed.targets[i] == defaults[i])
  {
    var uses := seq(|settings|, k requires 0 <= k < |settings| => Spell(settings[k]));
    forall k | 0 <= k < |uses|
      ensures Spelled(table, uses[k]) && Acceptable(table, uses[k])
      ensures Meaning(table, uses[k]) == Said(table, settings[k])
    {
      SpellsIt(table, settings[k]);
    }
    PrintedParse(table, uses, State({}, defaults));
    SettingsBound(table, settings, uses, defaults, ParseFrom(table, Print(table, uses), State({}, defaults)).targets);
  }

  lemma SettingsBound(table: seq<Opt>, settings: seq<Setting>, uses: seq<Use>,
        defaults: seq<Target>, targets: seq<Target>)
    requires |defaults| == |targets| == |table| && |uses| == |settings| && AllSpelled(table, uses)
    requires forall k :: 0 <= k < |uses| ==> uses[k].index == settings[k].index < |table|
    requires forall k :: 0 <= k < |uses| ==>
      Acceptable(table, uses[k]) && Meaning(table, uses[k]) == Said(table, settings[k])
    requires forall i: nat :: i < |table| ==> BoundTo(table, uses, defaults, targets, i)
    ensures forall k :: 0 <= k < |settings| ==> targets[settings[k].index] == Said(table, settings[k])
    ensures forall i: nat :: i < |table| && (forall k :: 0 <= k < |settings| ==> settings[k].index != i) ==>
      targets[i] == defaults[i]
  {
    forall k | 0 <= k < |settings|
      ensures targets[settings[k].index] == Said(table, settings[k])
    {
      assert BoundTo(table, uses, defaults, targets, uses[k].index);
    }
    forall i: nat | i < |table| && forall k :: 0 <= k < |settings| ==> settings[k].index != i
      ensures targets[i] == defaults[i]
    {
      assert BoundTo(table, uses, defaults, targets, i);
      assert forall k :: 0 <= k < |uses| ==> uses[k].index == settings[k].index;
    }
  }

  // The order of the occurrences never matters: neither for whether the command line is
  // accepted nor, when it is, for the value of any target.
  lemma OrderIndependent(table: seq<Opt>, uses: seq<Use>, uses': seq<Use>, s: State)
    requires TableOk(table) && AllSpelled(table, uses) && |s.targets| == |table|
    requires multiset(uses) == multiset(uses')
    ensures AllSpelled(table, uses')
    ensures var a := ParseFrom(table, Print(table, uses), s);
            AllSpelled(table, uses') ==>
              var b := ParseFrom(table, Print(table, uses'), s);
              && (a.error.None? <==> b.error.None?)
              && (a.error.None? ==> a.targets == b.targets)
  {
    SameMembers(uses, uses');
    PrintedParse(table, uses, s);
    PrintedParse(table, uses', s);
    AcceptsEither(table, uses, uses', s.seen);
    if Accepts(table, uses, s.seen) {
      SameTargets(table, uses, uses', s);
    }
  }

  lemma AcceptsEither(table: seq<Opt>, uses: seq<Use>, uses': seq<Use>, seen: set<nat>)
    requires AllSpelled(table, uses) && AllSpelled(table, uses') && multiset(uses) == multiset(uses')
    ensures Accepts(table, uses, seen) <==> Accepts(table, uses', seen)
  {
    if Accepts(table, uses, seen) {
      AcceptsPermuted(table, uses, uses', seen);
    }
    if Accepts(table, uses', seen) {
      AcceptsPermuted(table, uses', uses, seen);
    }
  }

  lemma SameTargets(table: seq<Opt>, uses: seq<Use>, uses': seq<Use>, s: State)
    requires TableOk(table) && AllSpelled(table, uses) && AllSpelled(table, uses') && |s.targets| == |table|
    requires multiset(uses) == multiset(uses') && Accepts(table, uses, s.seen)
    ensures ParseFrom(table, Print(table, uses), s).targets == ParseFrom(table, Print(table, uses'), s).targets
  {
    SameMembers(uses, uses');
    SameMembers(uses', uses);
    PrintedParse(table, uses, s);
    PrintedParse(table, uses', s);
    AcceptsEither(table, uses, uses', s.seen);
    var a := ParseFrom(table, Print(table, uses), s).targets;
    var b := ParseFrom(table, Print(table, uses'), s).targets;
    forall i: nat | i < |table|
      ensures a[i] == b[i]
    {
      assert BoundTo(table, uses, s.targets, a, i) && BoundTo(table, uses', s.targets, b, i);
      SameBinding(table, uses, uses', s.targets, a, b, i);
    }
  }

  lemma SameMembers(uses: seq<Use>, uses': seq<Use>)
    requires multiset(uses) == multiset(uses')
    ensures forall k :: 0 <= k < |uses'| ==> uses'[k] in uses
  {
    forall k | 0 <= k < |uses'|
      ensures uses'[k] in uses
    {
      assert uses'[k] in multiset(uses');
    }
  }

  lemma SameBinding(table: seq<Opt>, uses: seq<Use>, uses': seq<Use>, before: seq<Target>,
                    a: seq<Target>, b: seq<Target>, i: nat)
    requires AllSpelled(table, uses) && AllSpelled(table, uses') && |before| == |a| == |b| == |table| && i < |table|
    requires forall k :: 0 <= k < |uses'| ==> uses'[k] in uses
    requires forall k :: 0 <= k < |uses| ==> uses[k] in uses' && Acceptable(table, uses[k])
    requires BoundTo(table, uses, before, a, i) && BoundTo(table, uses', before, b, i)
    ensures a[i] == b[i]
  {
    if k :| 0 <= k < |uses| && uses[k].index == i {
      var k' :| 0 <= k' < |uses'| && uses'[k'] == uses[k];
    } else {
      forall k | 0 <= k < |uses'|
        ensures uses'[k].index != i
      {
        assert uses'[k] in uses;
      }
    }
  }

  lemma AcceptsPermuted(table: seq<Opt>, uses: seq<Use>, uses': seq<Use>, seen: set<nat>)
    requires AllSpelled(table, uses) && AllSpelled(table, uses') && multiset(uses) == multiset(uses')
    requires Accepts(table, uses, seen)
    ensures Accepts(table, uses', seen)
  {
    SameMembers(uses, uses');
    PermutationOfDistinct(uses', uses);
    forall j, k | 0 <= j < k < |uses'|
      ensures uses'[j].index != uses'[k].index
    {
      assert uses'[j] in uses && uses'[k] in uses;
    }
  }

  // ---- The parser object

  class Parser {
    var options: seq<Opt>
    var targets: seq<Target>

    ghost predicate Valid()
      reads this
    {
      |options| == |targets|
    }

    constructor ()
      ensures Valid() && options == []
    {
      options, targets := [], [];
    }

    // The part before the first comma is the name, the part after it the alias.
    method Add(names: string, kind: Kind, initial: Target)
      requires Valid()
      modifies this
      ensures Valid() && targets == old(targets) + [initial]
      ensures options == old(options) + [Split(names, kind)]
    {
      options := options + [Split(names, kind)];
      targets := targets + [initial];
    }

    method AddValue(names: string, kind: Kind, default: int)
      requires Valid() && IsInteger(kind)
      modifies this
      ensures Valid() && targets == old(targets) + [Num(Cast(kind, default))]
      ensures options == old(options) + [Split(names, kind)]
    {
      Add(names, kind, Num(Cast(kind, default)));
    }

    method AddFlag(names: string)
      requires Valid()
      modifies this
      ensures Valid() && targets == old(targets) + [On(false)]
      ensures options == old(options) + [Split(names, Switch)]
    {
      Add(names, Switch, On(false));
    }

    // The value of an option that takes one: attached, or the next argument.
    method TakeValue(args: seq<string>, i: nat, longForm: bool, equal: nat, attached: bool)
      returns (error: Option<Error>, text: string, next: nat)
      requires i < |args| && equal <= |args[i]|
      requires attached ==> if longForm then equal < |args[i]| else |args[i]| > 2
      ensures error.Some? <==> !attached && (|args| == i + 1 || LongStart(args[i + 1]))
      ensures error.Some? ==> error.value == MissingValue
      ensures error.None? ==> next == (if attached then i + 1 else i + 2)
      ensures error.None? ==>
        text == if !attached then args[i + 1] else if longForm then args[i][equal + 1..] else args[i][2..]
    {
      error, text, next := None, [], i;
      if attached {
        text, next := if longForm then args[i][equal + 1..] else args[i][2..], i + 1;
      } else if i + 1 == |args| || LongStart(args[i + 1]) {
        error := Some(MissingValue);
      } else {
        text, next := args[i + 1], i + 2;
      }
    }

    // The rest of a turn of the loop, once the option is known.
    method BindOption(args: seq<string>, i: nat, index: nat, ghost seen: set<nat>)
      returns (error: Option<Error>, next: nat)
      requires Valid() && i < |args| && |args[i]| >= 2 && index < |options|
      modifies this`targets
      ensures Valid()
      ensures var step := Bind(options, args[i..], index, State(seen, old(targets)));
              if error.Some? then step == Stop(error.value) && targets == old(targets)
              else i < next <= |args| && step == Used(next - i, State(seen + {index}, targets))
    {
      error, next := None, i + 1;
      var arg := args[i];
      assert args[i..][0] == arg;
      assert i + 1 < |args| ==> args[i..][1] == args[i + 1];
      var longForm, equal := LongStart(arg), Find(arg, '=');
      var attached := if longForm then equal < |arg| else |arg| > 2;
      if options[index].kind.Switch? {
        if attached {
          return Some(TakesNoValue), i;
        }
        targets := targets[index := On(true)];
      } else {
        var text;
        error, text, next := TakeValue(args, i, longForm, equal, attached);
        if error.None? {
          var v := Convert(options[index].kind, text);
          if v.None? {
            return Some(InvalidValue), i;
          }
          targets := targets[index := Num(v.value)];
        }
      }
    }

    // One turn of the loop of parse, for the argument at i.
    method ParseOne(args: seq<string>, i: nat, seen: set<nat>)
      returns (error: Option<Error>, next: nat, seen': set<nat>)
      requires Valid() && i < |args|
      modifies this`targets
      ensures Valid()
      ensures var step := ParseStep(options, args[i..], State(seen, old(targets)));
              if error.Some? then step == Stop(error.value) && targets == old(targets)
              else i < next <= |args| && step == Used(next - i, State(seen', targets))
    {
      assert args[i..][0] == args[i];
      var arg := args[i];
      if |arg| < 2 || arg[0] != '-' || arg == "--" {
        return Some(Unexpected), i, seen;
      }
      var longForm, equal := LongStart(arg), Find(arg, '=');
      var name := if longForm then (if 2 <= equal then arg[2..equal] else []) else arg[1..2];
      var index := Lookup(options, longForm, name);
      if index == |options| {
        return Some(Unknown), i, seen;
      }
      if index in seen {
        return Some(Duplicate), i, seen;
      }
      seen' := seen + {index};
      error, next := BindOption(args, i, index, seen);
    }

    method Parse(args: seq<string>) returns (error: Option<Error>)
      requires Valid()
      modifies this`targets
      ensures Valid()
      ensures Parsed(error, targets) == ParseFrom(options, args, State({}, old(targets)))
    {
      var seen: set<nat> := {};
      var i := 0;
      ghost var whole := ParseFrom(options, args, State({}, targets));
      while i < |args|
        invariant 0 <= i <= |args| && Valid()
        invariant ParseFrom(options, args[i..], State(seen, targets)) == whole
      {
        if args[i] == "--" && i + 1 == |args| {
          break;
        }
        var next;
        error, next, seen := ParseOne(args, i, seen);
        if error.Some? {
          return;
        }
        assert args[i..][next - i..] == args[next..];
        i := next;
      }
      return None;
    }
  }

  function Split(names: string, kind: Kind): Opt {
    var comma := Find(names, ',');
    Opt(names[..comma], if comma < |names| then names[comma + 1..] else [], kind)
  }

  lemma SplitJoined(name: string, alias: string, kind: Kind)
    requires ',' !in name
    ensures Split(name + "," + alias, kind) == Opt(name, alias, kind)
    ensures Split(name, kind) == Opt(name, [], kind)
  {
    FindAfter(name, alias, ',');
  }
}
