/** Runtime variables as one flat map: what every branch of an execution sees. */
module RuntimeState {
  import opened Bytes

  type Name = seq<Byte>

  /** A text value, a value that is not UTF-8, or the mark of an unset variable. */
  datatype Value = Text(text: seq<Byte>) | Raw(bytes: seq<Byte>) | Removed

  datatype State = State(values: map<Name, Value>, processId: seq<Byte>, status: seq<Byte>, rcFile: Option<seq<Byte>>)

  const MAX_POSITIONAL: nat := 256
  const MAX_USIZE: nat := 0xFFFF_FFFF_FFFF_FFFF

  const COUNT_NAME: Name := [35]
  /** `LASTFOLDER` */
  const LAST_FOLDER: Name := [76, 65, 83, 84, 70, 79, 76, 68, 69, 82]

  predicate IsDigit(b: Byte) {
    48 <= b <= 57
  }

  /** The number its first `n` digits denote, unless it is over the machine's range. */
  function DigitsValue(s: seq<Byte>, n: nat): Option<nat>
    requires n <= |s|
  {
    if n == 0 then Some(0)
    else
      var high := DigitsValue(s, n - 1);
      if high.None? || !IsDigit(s[n - 1]) || high.value * 10 + (s[n - 1] - 48) > MAX_USIZE then None
      else Some(high.value * 10 + (s[n - 1] - 48))
  }

  /** Parsing an unsigned number, which may carry a plus sign. */
  function ParseNumber(s: seq<Byte>): Option<nat> {
    var digits := if s != [] && s[0] == 43 then s[1..] else s;
    if digits == [] then None else DigitsValue(digits, |digits|)
  }

  predicate IsPositional(name: Name) {
    name == COUNT_NAME ||
    (name != [] && (forall i :: 0 <= i < |name| ==> IsDigit(name[i])) &&
     var index := ParseNumber(name);
     index.Some? && 1 <= index.value <= MAX_POSITIONAL)
  }

  /** What an unassigned name stands for. */
  function Unassigned(name: Name): Option<seq<Byte>> {
    if name == COUNT_NAME then Some([48]) else if IsPositional(name) then Some([]) else None
  }

  function Plain(st: State, name: Name, raw: bool): Option<seq<Byte>> {
    if name !in st.values then Unassigned(name)
    else
      match st.values[name]
      case Text(text) => Some(text)
      case Raw(bytes) => if raw then Some(bytes) else None
      case Removed => None
  }

  /** `get`, and with `raw` set `get_bytes`. */
  function Lookup(st: State, name: Name, raw: bool): Option<seq<Byte>> {
    if name == [36] then Some(st.processId)
    else if name == [63] then Some(st.status)
    else if name == [95] then st.rcFile
    else if name == [45] then Plain(st, LAST_FOLDER, raw)
    else Plain(st, name, raw)
  }

  function Assigned(st: State, name: Name, value: Value): State {
    st.(values := st.values[name := value])
  }

  // ----- Numbers and their digits -----

  lemma {:induction false} DigitsOfDecimal(n: nat)
    requires n <= MAX_USIZE
    ensures var s := Decimal(n);
            DigitsValue(s, |s|) == Some(n) && forall i :: 0 <= i < |s| ==> IsDigit(s[i])
  {
    if 10 <= n {
      DigitsOfDecimal(n / 10);
      var high, s := Decimal(n / 10), Decimal(n);
      SameDigits(high, s, |high|);
    } else {
      var s := Decimal(n);
      assert DigitsValue(s, 0) == Some(0);
    }
  }

  lemma {:induction false} SameDigits(a: seq<Byte>, b: seq<Byte>, n: nat)
    requires n <= |a| && n <= |b| && forall i :: 0 <= i < n ==> a[i] == b[i]
    ensures DigitsValue(a, n) == DigitsValue(b, n)
  {
    if 0 < n {
      SameDigits(a, b, n - 1);
    }
  }

  /** Reading a number back from its digits, with a plus sign or without. */
  lemma ParseDecimal(n: nat)
    requires n <= MAX_USIZE
    ensures ParseNumber(Decimal(n)) == Some(n) && ParseNumber([43] + Decimal(n)) == Some(n) && IsDigit(Decimal(n)[0])
  {
    DigitsOfDecimal(n);
  }

  // ----- Shifting -----

  function Count(st: State): nat {
    var text := Lookup(st, COUNT_NAME, false);
    var number := if text.None? then None else ParseNumber(text.value);
    if number.None? then 0 else number.value
  }

  /** The argument numbered `k`, empty when it is not text. */
  function Argument(st: State, k: nat): seq<Byte> {
    var text := Lookup(st, Decimal(k), false);
    if text.None? then [] else text.value
  }

  /** The names 1 to `n` after a shift that leaves `window`. */
  function Renumbered(values: map<Name, Value>, window: seq<seq<Byte>>, n: nat): map<Name, Value> {
    if n == 0 then values
    else Renumbered(values, window, n - 1)[Decimal(n) := if n <= |window| then Text(window[n - 1]) else Removed]
  }

  function Window(st: State, amount: nat, remaining: nat): (w: seq<seq<Byte>>)
    ensures |w| == remaining && forall i :: 0 <= i < remaining ==> w[i] == Argument(st, i + 1 + amount)
  {
    seq(remaining, i requires 0 <= i < remaining => Argument(st, i + 1 + amount))
  }

  /** `shift_positionals`. */
  function Shifted(st: State, requested: nat): State {
    var count := Count(st);
    var amount := Min(requested, count);
    var values := Renumbered(st.values, Window(st, amount, count - amount), MAX_POSITIONAL);
    st.(values := values[COUNT_NAME := Text(Decimal(count - amount))])
  }

  lemma CountIsBounded(st: State)
    ensures Count(st) <= MAX_USIZE
  {
    var text := Lookup(st, COUNT_NAME, false);
    if text.Some? && ParseNumber(text.value).Some? {
      var s := text.value;
      var digits := if s != [] && s[0] == 43 then s[1..] else s;
      assert DigitsValue(digits, |digits|).value <= MAX_USIZE;
    }
  }

  lemma {:induction false} RenumberedGet(values: map<Name, Value>, window: seq<seq<Byte>>, n: nat, k: nat)
    requires 1 <= k <= n
    ensures Decimal(k) in Renumbered(values, window, n)
    ensures Renumbered(values, window, n)[Decimal(k)] == if k <= |window| then Text(window[k - 1]) else Removed
  {
    if k < n {
      RenumberedGet(values, window, n - 1, k);
      DecimalInjective(k, n);
    }
  }

  lemma {:induction false} RenumberedKeeps(values: map<Name, Value>, window: seq<seq<Byte>>, n: nat, name: Name)
    requires forall k :: 1 <= k <= n ==> name != Decimal(k)
    ensures name in Renumbered(values, window, n) <==> name in values
    ensures name in values ==> Renumbered(values, window, n)[name] == values[name]
  {
    if 0 < n {
      RenumberedKeeps(values, window, n - 1, name);
    }
  }

  lemma NotSpecial(k: nat)
    requires k <= MAX_USIZE
    ensures Decimal(k) != COUNT_NAME && Decimal(k) != [36] && Decimal(k) != [63] && Decimal(k) != [95] && Decimal(k) != [45]
  {
    ParseDecimal(k);
  }

  lemma ShiftedCount(st: State, requested: nat)
    ensures Count(Shifted(st, requested)) == Count(st) - Min(requested, Count(st))
  {
    CountIsBounded(st);
    ParseDecimal(Count(st) - Min(requested, Count(st)));
  }

  /** The arguments after one shift: moved down, except that names over 256 stay as they were. */
  lemma ShiftedArgument(st: State, requested: nat, k: nat)
    requires 1 <= k <= Count(st) - Min(requested, Count(st))
    ensures Argument(Shifted(st, requested), k) ==
            if k <= MAX_POSITIONAL then Argument(st, k + Min(requested, Count(st))) else Argument(st, k)
  {
    CountIsBounded(st);
    NotSpecial(k);
    var amount := Min(requested, Count(st));
    var window := Window(st, amount, Count(st) - amount);
    if k <= MAX_POSITIONAL {
      RenumberedGet(st.values, window, MAX_POSITIONAL, k);
    } else {
      forall j | 1 <= j <= MAX_POSITIONAL ensures Decimal(k) != Decimal(j) {
        DecimalInjective(k, j);
      }
      RenumberedKeeps(st.values, window, MAX_POSITIONAL, Decimal(k));
    }
  }

  /** Renumbering overwrites every earlier renumbering. */
  lemma RenumberedTwice(values: map<Name, Value>, first: seq<seq<Byte>>, second: seq<seq<Byte>>, n: nat, count: Value, last: Value)
    ensures Renumbered(Renumbered(values, first, n)[COUNT_NAME := count], second, n)[COUNT_NAME := last] ==
            Renumbered(values, second, n)[COUNT_NAME := last]
  {
    var once := Renumbered(values, first, n)[COUNT_NAME := count];
    var a, b := Renumbered(once, second, n)[COUNT_NAME := last], Renumbered(values, second, n)[COUNT_NAME := last];
    forall name ensures (name in a <==> name in b) && (name in a ==> a[name] == b[name]) {
      if k :| 1 <= k <= n && name == Decimal(k) {
        RenumberedGet(once, second, n, k);
        RenumberedGet(values, second, n, k);
      } else {
        RenumberedKeeps(once, second, n, name);
        RenumberedKeeps(values, second, n, name);
        RenumberedKeeps(values, first, n, name);
      }
    }
  }

  /** Only the first `n` entries of the window matter. */
  lemma {:induction false} RenumberedSame(values: map<Name, Value>, a: seq<seq<Byte>>, b: seq<seq<Byte>>, n: nat)
    requires |a| == |b| && forall i :: 0 <= i < |a| && i < n ==> a[i] == b[i]
    ensures Renumbered(values, a, n) == Renumbered(values, b, n)
  {
    if 0 < n {
      RenumberedSame(values, a, b, n - 1);
    }
  }

  /** Equal results need equal windows, as far as they are used. */
  lemma RenumberedTells(values: map<Name, Value>, a: seq<seq<Byte>>, b: seq<seq<Byte>>, n: nat, count: Value)
    requires |a| == |b| && n <= MAX_USIZE
    requires Renumbered(values, a, n)[COUNT_NAME := count] == Renumbered(values, b, n)[COUNT_NAME := count]
    ensures forall i :: 0 <= i < |a| && i < n ==> a[i] == b[i]
  {
    forall i | 0 <= i < |a| && i < n ensures a[i] == b[i] {
      RenumberedGet(values, a, n, i + 1);
      RenumberedGet(values, b, n, i + 1);
      NotSpecial(i + 1);
      var name := Decimal(i + 1);
      assert Renumbered(values, a, n)[name] == Renumbered(values, a, n)[COUNT_NAME := count][name];
      assert Renumbered(values, b, n)[name] == Renumbered(values, b, n)[COUNT_NAME := count][name];
    }
  }

  /** Argument `i` after a shift by `first` and one by `second` was not moved by
      the first one when it came from a name over 256; then it has to be the one
      that should have moved there. */
  predicate Agrees(st: State, first: nat, second: nat, i: nat) {
    i + first + second <= Count(st) && MAX_POSITIONAL < i + second ==>
      Argument(st, i + second) == Argument(st, i + first + second)
  }

  ghost predicate AllAgree(st: State, first: nat, second: nat) {
    forall i :: 1 <= i <= MAX_POSITIONAL ==> Agrees(st, first, second, i)
  }

  ghost predicate LateArgumentsAgree(st: State, a: nat, b: nat) {
    var first := Min(a, Count(st));
    AllAgree(st, first, Min(b, Count(st) - first))
  }

  lemma WindowTwice(st: State, a: nat, second: nat, i: nat)
    requires i + Min(a, Count(st)) + second < Count(st)
    ensures var first := Min(a, Count(st));
            var left := Count(st) - first - second;
            Window(Shifted(st, a), second, left)[i] ==
            if i + 1 + second <= MAX_POSITIONAL then Window(st, first + second, left)[i] else Argument(st, i + 1 + second)
  {
    var first := Min(a, Count(st));
    ShiftedArgument(st, a, i + 1 + second);
    assert i + 1 + second + first == i + 1 + (first + second);
  }

  lemma WindowsAgree(st: State, a: nat, second: nat, i: nat)
    requires var first := Min(a, Count(st));
             i + first + second < Count(st) && i < MAX_POSITIONAL
    ensures var first := Min(a, Count(st));
            var left := Count(st) - first - second;
            Window(Shifted(st, a), second, left)[i] == Window(st, first + second, left)[i] <==>
            Agrees(st, first, second, i + 1)
  {
    var first := Min(a, Count(st));
    WindowTwice(st, a, second, i);
    assert i + 1 + (first + second) == i + 1 + first + second;
  }

  /** Two shifts, as one renumbering. */
  lemma SecondWindow(st: State, a: nat, first: nat, b: nat, second: nat)
    requires first == Min(a, Count(st)) && second == Min(b, Count(st) - first)
    ensures var left := Count(st) - first - second;
            Shifted(Shifted(st, a), b) ==
            st.(values := Renumbered(st.values, Window(Shifted(st, a), second, left), MAX_POSITIONAL)
                            [COUNT_NAME := Text(Decimal(left))])
  {
    var left := Count(st) - first - second;
    ShiftedCount(st, a);
    RenumberedTwice(st.values, Window(st, first, Count(st) - first), Window(Shifted(st, a), second, left), MAX_POSITIONAL,
                    Text(Decimal(Count(st) - first)), Text(Decimal(left)));
  }

  /** Both results, as renumberings of the same values. */
  lemma BothWindows(st: State, a: nat, first: nat, b: nat, second: nat)
      returns (two: seq<seq<Byte>>, one: seq<seq<Byte>>, count: Value)
    requires first == Min(a, Count(st)) && second == Min(b, Count(st) - first)
    ensures Shifted(Shifted(st, a), b) == st.(values := Renumbered(st.values, two, MAX_POSITIONAL)[COUNT_NAME := count])
    ensures Shifted(st, a + b) == st.(values := Renumbered(st.values, one, MAX_POSITIONAL)[COUNT_NAME := count])
    ensures |two| == |one| == Count(st) - first - second
    ensures forall i :: 0 <= i < |two| && i < MAX_POSITIONAL ==> (two[i] == one[i] <==> Agrees(st, first, second, i + 1))
  {
    var left := Count(st) - first - second;
    two, one, count := Window(Shifted(st, a), second, left), Window(st, first + second, left), Text(Decimal(left));
    SecondWindow(st, a, first, b, second);
    OnlyWindow(st, a + b, first + second);
    AllWindowsAgree(st, a, first, second, left);
  }

  lemma OnlyWindow(st: State, requested: nat, amount: nat)
    requires amount == Min(requested, Count(st))
    ensures var left := Count(st) - amount;
            Shifted(st, requested) ==
            st.(values := Renumbered(st.values, Window(st, amount, left), MAX_POSITIONAL)[COUNT_NAME := Text(Decimal(left))])
  {
  }

  lemma AllWindowsAgree(st: State, a: nat, first: nat, second: nat, left: nat)
    requires first == Min(a, Count(st)) && first + second + left == Count(st)
    ensures var two, one := Window(Shifted(st, a), second, left), Window(st, first + second, left);
            forall i :: 0 <= i < left && i < MAX_POSITIONAL ==> (two[i] == one[i] <==> Agrees(st, first, second, i + 1))
  {
    var two, one := Window(Shifted(st, a), second, left), Window(st, first + second, left);
    forall i | 0 <= i < left && i < MAX_POSITIONAL ensures two[i] == one[i] <==> Agrees(st, first, second, i + 1) {
      WindowsAgree(st, a, second, i);
    }
  }

  /** Two shifts are one shift by their sum exactly when those arguments agree. */
  lemma TwoShifts(st: State, a: nat, b: nat)
    ensures Shifted(Shifted(st, a), b) == Shifted(st, a + b) <==> LateArgumentsAgree(st, a, b)
  {
    var first := Min(a, Count(st));
    var second := Min(b, Count(st) - first);
    var two, one, count := BothWindows(st, a, first, b, second);
    FromWindows(st.values, two, one, count);
    AgreeFromOne(st, first, second, |two|, two, one);
  }

  lemma FromWindows(values: map<Name, Value>, two: seq<seq<Byte>>, one: seq<seq<Byte>>, count: Value)
    requires |two| == |one|
    ensures Renumbered(values, two, MAX_POSITIONAL)[COUNT_NAME := count] ==
            Renumbered(values, one, MAX_POSITIONAL)[COUNT_NAME := count] <==>
            forall i :: 0 <= i < |two| && i < MAX_POSITIONAL ==> two[i] == one[i]
  {
    if Renumbered(values, two, MAX_POSITIONAL)[COUNT_NAME := count] ==
       Renumbered(values, one, MAX_POSITIONAL)[COUNT_NAME := count] {
      RenumberedTells(values, two, one, MAX_POSITIONAL, count);
    }
    if forall i :: 0 <= i < |two| && i < MAX_POSITIONAL ==> two[i] == one[i] {
      RenumberedSame(values, two, one, MAX_POSITIONAL);
    }
  }

  lemma AgreeFromOne(st: State, first: nat, second: nat, left: nat, two: seq<seq<Byte>>, one: seq<seq<Byte>>)
    requires |two| == |one| == left && first + second + left == Count(st)
    requires forall i :: 0 <= i < left && i < MAX_POSITIONAL ==> (two[i] == one[i] <==> Agrees(st, first, second, i + 1))
    ensures (forall i :: 0 <= i < left && i < MAX_POSITIONAL ==> two[i] == one[i]) <==>
            AllAgree(st, first, second)
  {
    if forall i :: 0 <= i < left && i < MAX_POSITIONAL ==> two[i] == one[i] {
      forall i | 1 <= i <= MAX_POSITIONAL ensures Agrees(st, first, second, i) {
        if i <= left {
          assert two[i - 1] == one[i - 1];
          assert Agrees(st, first, second, i - 1 + 1);
        }
      }
    }
  }

  /** So they always are within the limit on positional arguments, which the
      program starts within and no shift leaves. */
  lemma TwoShiftsWithinLimit(st: State, a: nat, b: nat)
    requires Count(st) <= MAX_POSITIONAL
    ensures Shifted(Shifted(st, a), b) == Shifted(st, a + b) && Count(Shifted(st, a)) <= MAX_POSITIONAL
  {
    TwoShifts(st, a, b);
    ShiftedCount(st, a);
  }

  /** The limit is needed: with 258 arguments, which the program refuses, two shifts
      by one would leave the old argument 257 where argument 258 belongs. */
  lemma ShiftsBeyondLimit() returns (st: State)
    ensures Count(st) == 258 && Shifted(Shifted(st, 1), 1) != Shifted(st, 2)
  {
    var values: map<Name, Value> := map[COUNT_NAME := Text(Decimal(258)), Decimal(257) := Text([97]), Decimal(258) := Text([98])];
    st := State(values, [], [], None);
    NotSpecial(257);
    NotSpecial(258);
    ParseDecimal(258);
    DecimalInjective(257, 258);
    assert Argument(st, 257) == [97] && Argument(st, 258) == [98];
    assert !Agrees(st, 1, 1, 256);
    TwoShifts(st, 1, 1);
  }

  // ----- Reading back -----

  /** `$`, `?`, `_` and `-`: names that are not looked up as such. */
  predicate IsSpecial(name: Name) {
    name == [36] || name == [63] || name == [95] || name == [45]
  }

  /** An assigned name reads back as its text, to byte lookup also when it is not
      UTF-8, and not at all once removed; `-` is the last folder; nothing else changes. */
  lemma AssignmentIsRead(st: State, name: Name, value: Value, other: Name, raw: bool)
    ensures !IsSpecial(name) ==>
              Lookup(Assigned(st, name, value), name, raw) ==
              if value.Text? then Some(value.text) else if value.Raw? && raw then Some(value.bytes) else None
    ensures other != name && !(other == [45] && name == LAST_FOLDER) ==>
              Lookup(Assigned(st, name, value), other, raw) == Lookup(st, other, raw)
    ensures Lookup(Assigned(st, LAST_FOLDER, value), [45], raw) == Lookup(Assigned(st, LAST_FOLDER, value), LAST_FOLDER, raw)
    ensures Lookup(st, [36], raw) == Some(st.processId) && Lookup(st, [63], raw) == Some(st.status) && Lookup(st, [95], raw) == st.rcFile
  {
  }

  /** What is read where nothing has been assigned: no arguments, each of them empty. */
  lemma UnassignedReads(st: State, k: nat, raw: bool)
    requires 1 <= k <= MAX_USIZE
    ensures COUNT_NAME !in st.values ==> Lookup(st, COUNT_NAME, raw) == Some(Decimal(0))
    ensures Decimal(k) !in st.values ==> Lookup(st, Decimal(k), raw) == if k <= MAX_POSITIONAL then Some([]) else None
  {
    NotSpecial(k);
    DigitsOfDecimal(k);
    ParseDecimal(k);
  }
}
