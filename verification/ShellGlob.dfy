/** What the text of a pattern stands for: every pattern is written from elements,
    each with a meaning of its own. */
module ShellGlob {
  import opened Bytes
  import opened ShellPattern
  import opened ShellQuote

  /** A byte inside brackets, and whether it is escaped. */
  type Item = (Byte, bool)

  datatype Member = One(item: Item) | Range(low: Item, high: Item) {
    function Items(): (items: seq<Item>)
      ensures items != []
    {
      if One? then [item] else [low, (HYPHEN, false), high]
    }

    predicate Has(b: Byte) {
      if One? then b == item.0 else low.0 <= b <= high.0
    }
  }

  datatype Element =
    | Star
    | Question
    | Ordinary(byte: Byte)
    | Escaped(byte: Byte)
    | Class(mark: seq<Byte>, members: seq<Member>)
    | LooseOpen
    | LooseSlash

  // ----- How elements are written -----

  function WrittenItem(item: Item): seq<Byte> {
    if item.1 then [BACKSLASH, item.0] else [item.0]
  }

  function WrittenItems(items: seq<Item>): seq<Byte> {
    if items == [] then [] else WrittenItem(items[0]) + WrittenItems(items[1..])
  }

  function ItemsOf(members: seq<Member>): seq<Item> {
    if members == [] then [] else members[0].Items() + ItemsOf(members[1..])
  }

  function Bracketed(mark: seq<Byte>, items: seq<Item>): seq<Byte> {
    [OPEN] + mark + WrittenItems(items) + [CLOSE]
  }

  function Written(e: Element): (text: seq<Byte>)
    ensures text != []
  {
    match e
    case Star => [STAR]
    case Question => [QUESTION]
    case Ordinary(b) => [b]
    case Escaped(b) => [BACKSLASH, b]
    case Class(mark, members) => Bracketed(mark, ItemsOf(members))
    case LooseOpen => [OPEN]
    case LooseSlash => [BACKSLASH]
  }

  function WrittenAll(es: seq<Element>): seq<Byte> {
    if es == [] then [] else Written(es[0]) + WrittenAll(es[1..])
  }

  /** Items that neither close nor escape what follows. */
  predicate StayOpen(items: seq<Item>) {
    items == [] || (items[0] != (BACKSLASH, false) && items[0] != (CLOSE, false) && StayOpen(items[1..]))
  }

  /** A `]` closes, unless it comes first. */
  predicate AreItems(items: seq<Item>) {
    items != [] && items[0] != (BACKSLASH, false) && StayOpen(items[1..])
  }

  /** An unescaped hyphen does not stand between two items of which it could make a range. */
  predicate AreMembers(members: seq<Member>, afterOne: bool) {
    members == [] ||
    ((afterOne && members[0].Items()[0] == (HYPHEN, false) ==> members[0].One? && |members| == 1) &&
     AreMembers(members[1..], members[0].One?))
  }

  predicate IsBracket(mark: seq<Byte>, items: seq<Item>) {
    (mark == [] || mark == [BANG] || mark == [CARET]) && AreItems(items) &&
    (mark == [] ==> items[0] != (BANG, false) && items[0] != (CARET, false))
  }

  predicate IsClass(e: Element) {
    e.Class? && AreMembers(e.members, false) && IsBracket(e.mark, ItemsOf(e.members))
  }

  ghost predicate StartsClass(text: seq<Byte>) {
    exists e {:trigger IsClass(e)} :: IsClass(e) && Written(e) <= text
  }

  /** An element as it may stand before `rest`. */
  ghost predicate MayStand(e: Element, rest: seq<Byte>) {
    match e
    case Star => true
    case Question => true
    case Ordinary(b) => b != STAR && b != QUESTION && b != OPEN && b != BACKSLASH
    case Escaped(_) => true
    case Class(_, _) => IsClass(e)
    case LooseOpen => !StartsClass([OPEN] + rest)
    case LooseSlash => rest == []
  }

  ghost predicate AreElements(es: seq<Element>) {
    es == [] || (MayStand(es[0], WrittenAll(es[1..])) && AreElements(es[1..]))
  }

  // ----- What elements mean -----

  predicate Listed(members: seq<Member>, b: Byte) {
    exists k :: 0 <= k < |members| && members[k].Has(b)
  }

  /** What one element stands for. */
  predicate StandsFor(e: Element, s: seq<Byte>) {
    match e
    case Star => true
    case Question => |s| == 1
    case Ordinary(b) => s == [b]
    case Escaped(b) => s == [b]
    case Class(mark, members) => |s| == 1 && (Listed(members, s[0]) <==> mark == [])
    case LooseOpen => s == [OPEN]
    case LooseSlash => s == [BACKSLASH]
  }

  /** Elements after one another stand for what they stand for joined. */
  ghost predicate Means(es: seq<Element>, s: seq<Byte>) {
    if es == [] then s == []
    else exists k :: 0 <= k <= |s| && StandsFor(es[0], s[..k]) && Means(es[1..], s[k..])
  }

  // ----- Reading brackets -----

  /** The items are written from `i` on, and closed at `end`. */
  predicate ItemsStand(p: seq<Byte>, i: nat, items: seq<Item>, end: nat)
    decreases |items|
  {
    if items == [] then i == end < |p| && p[i] == CLOSE
    else Holds(p, i, WrittenItem(items[0])) && ItemsStand(p, i + |WrittenItem(items[0])|, items[1..], end)
  }

  lemma ItemIsRead(p: seq<Byte>, i: nat, item: Item)
    requires Holds(p, i, WrittenItem(item)) && item != (BACKSLASH, false) && item != (CLOSE, false)
    ensures ClassItems(p, i) == PutItem(item, ClassItems(p, i + |WrittenItem(item)|))
  {
    assert WrittenItem(item)[0] == p[i];
    if item.1 {
      assert WrittenItem(item)[1] == p[i + 1];
    }
  }

  lemma {:induction false} ItemsAreRead(p: seq<Byte>, i: nat, items: seq<Item>, end: nat)
    requires ItemsStand(p, i, items, end) && StayOpen(items)
    ensures i < |p| && ClassItems(p, i) == Some((items, end))
    decreases |items|
  {
    if items != [] {
      ItemIsRead(p, i, items[0]);
      ItemsAreRead(p, i + |WrittenItem(items[0])|, items[1..], end);
      assert [items[0]] + items[1..] == items;
    }
  }

  lemma ItemWasWritten(p: seq<Byte>, i: nat) returns (item: Item, next: nat)
    requires i < |p| && p[i] != CLOSE
    ensures i < next <= |p| && next == i + |WrittenItem(item)| && Holds(p, i, WrittenItem(item))
    ensures ClassItems(p, i).Some? ==> item != (BACKSLASH, false) && item != (CLOSE, false)
    ensures ClassItems(p, i) == PutItem(item, ClassItems(p, next))
  {
    var escaped := p[i] == BACKSLASH && i + 1 < |p|;
    item := if escaped then (p[i + 1], true) else (p[i], false);
    next := if escaped then i + 2 else i + 1;
  }

  lemma {:induction false} ItemsWereWritten(p: seq<Byte>, i: nat)
    requires i <= |p| && ClassItems(p, i).Some?
    ensures var (items, end) := ClassItems(p, i).value; ItemsStand(p, i, items, end) && StayOpen(items)
    decreases |p| - i
  {
    if p[i] != CLOSE {
      var item, next := ItemWasWritten(p, i);
      ItemsWereWritten(p, next);
      var more := ClassItems(p, next).value.0;
      assert ([item] + more)[1..] == more;
    }
  }

  // ----- Ranges -----

  function Bounds(m: Member): (Byte, Byte) {
    if m.One? then (m.item.0, m.item.0) else (m.low.0, m.high.0)
  }

  function RangesOf(members: seq<Member>): seq<(Byte, Byte)> {
    if members == [] then [] else [Bounds(members[0])] + RangesOf(members[1..])
  }

  /** A single item is read as one unless a hyphen with something behind it follows. */
  lemma MemberIsRead(items: seq<Item>, i: nat, m: Member)
    requires i + |m.Items()| <= |items| && forall k :: 0 <= k < |m.Items()| ==> items[i + k] == m.Items()[k]
    requires m.One? && i + 2 < |items| ==> items[i + 1] != (HYPHEN, false)
    ensures ClassRanges(items, i) == [Bounds(m)] + ClassRanges(items, i + |m.Items()|)
  {
    assert items[i + 0] == m.Items()[0];
    if m.Range? {
      assert items[i + 1] == m.Items()[1] && items[i + 2] == m.Items()[2];
    }
  }

  lemma {:induction false} MembersAreRead(items: seq<Item>, i: nat, members: seq<Member>, afterOne: bool)
    requires i <= |items| && items[i..] == ItemsOf(members) && AreMembers(members, afterOne)
    ensures ClassRanges(items, i) == RangesOf(members)
    decreases |members|
  {
    if members != [] {
      var own, rest := members[0].Items(), members[1..];
      MembersSplit(items, i, own, ItemsOf(rest));
      if members[0].One? && i + 2 < |items| {
        OneBefore(items, i + 1, rest);
      }
      MemberIsRead(items, i, members[0]);
      MembersAreRead(items, i + |own|, rest, members[0].One?);
    }
  }

  lemma OneBefore(items: seq<Item>, i: nat, rest: seq<Member>)
    requires i <= |items| && items[i..] == ItemsOf(rest) && AreMembers(rest, true) && i + 1 < |items|
    ensures items[i] != (HYPHEN, false)
  {
    assert items[i] == items[i..][0] == rest[0].Items()[0];
    if |rest| == 1 {
      assert rest[1..] == [];
      assert |ItemsOf(rest)| == |rest[0].Items()|;
    }
  }

  lemma MembersSplit(items: seq<Item>, i: nat, own: seq<Item>, rest: seq<Item>)
    requires i <= |items| && items[i..] == own + rest
    ensures i + |own| <= |items| && items[i + |own|..] == rest && forall k :: 0 <= k < |own| ==> items[i + k] == own[k]
  {
    assert items[i + |own|..] == items[i..][|own|..];
    forall k | 0 <= k < |own| ensures items[i + k] == own[k] {
      assert items[i..][k] == own[k];
    }
  }

  lemma {:induction false} MembersWereWritten(items: seq<Item>, i: nat, afterOne: bool) returns (members: seq<Member>)
    requires i <= |items|
    requires afterOne && i + 1 < |items| ==> items[i] != (HYPHEN, false)
    ensures items[i..] == ItemsOf(members) && AreMembers(members, afterOne)
    decreases |items| - i
  {
    if i == |items| {
      members := [];
    } else {
      var isRange := i + 2 < |items| && items[i + 1] == (HYPHEN, false);
      var first := if isRange then Range(items[i], items[i + 2]) else One(items[i]);
      var rest := MembersWereWritten(items, i + |first.Items()|, first.One?);
      members := [first] + rest;
      assert members[1..] == rest;
      assert items[i..] == first.Items() + items[i + |first.Items()|..];
    }
  }

  predicate Covered(ranges: seq<(Byte, Byte)>, b: Byte) {
    exists i :: 0 <= i < |ranges| && ranges[i].0 <= b <= ranges[i].1
  }

  lemma {:induction false} RangesAreMembers(members: seq<Member>, b: Byte)
    ensures Covered(RangesOf(members), b) <==> Listed(members, b)
    decreases |members|
  {
    if members != [] {
      var rest := members[1..];
      RangesAreMembers(rest, b);
      var ranges := RangesOf(members);
      assert ranges[1..] == RangesOf(rest);
      assert (ranges[0].0 <= b <= ranges[0].1) <==> members[0].Has(b);
      if k :| 0 <= k < |rest| && rest[k].Has(b) {
        assert members[k + 1].Has(b);
      }
      if Covered(RangesOf(rest), b) {
        var i :| 0 <= i < |RangesOf(rest)| && RangesOf(rest)[i].0 <= b <= RangesOf(rest)[i].1;
        assert ranges[i + 1].0 <= b <= ranges[i + 1].1;
      }
      if i :| 0 < i < |ranges| && ranges[i].0 <= b <= ranges[i].1 {
        assert RangesOf(rest)[i - 1].0 <= b <= RangesOf(rest)[i - 1].1;
      }
      if k :| 0 < k < |members| && members[k].Has(b) {
        assert rest[k - 1].Has(b);
      }
    }
  }

  // ----- Reading elements -----

  /** The items between the brackets as `parse_class` collects them from `n` on. */
  function CollectedItems(p: seq<Byte>, n: nat): Option<(seq<Item>, nat)>
    requires n <= |p|
  {
    if n < |p| && p[n] == CLOSE then PutItem((CLOSE, false), ClassItems(p, n + 1)) else ClassItems(p, n)
  }

  lemma CollectedIs(p: seq<Byte>, i: nat)
    requires i <= |p|
    ensures var n := ClassStart(p, i);
            ParsedClass(p, i) == match CollectedItems(p, n)
                                 case None => None
                                 case Some((items, end)) => Some((ByteClass(n != i, ClassRanges(items, 0)), end + 1))
  {
    var found := ClassItems(p, ClassStart(p, i));
    if found.Some? {
      NoneLeft(found.value.0);
    }
  }

  lemma ItemsAreCollected(p: seq<Byte>, n: nat, items: seq<Item>, end: nat)
    requires ItemsStand(p, n, items, end) && AreItems(items)
    ensures n < |p| && p[n] == WrittenItem(items[0])[0] && CollectedItems(p, n) == Some((items, end))
  {
    assert WrittenItem(items[0])[0] == p[n + 0];
    if items[0] == (CLOSE, false) {
      ItemsAreRead(p, n + 1, items[1..], end);
      assert [items[0]] + items[1..] == items;
    } else {
      ItemsAreRead(p, n, items, end);
    }
  }

  lemma ItemsWereCollected(p: seq<Byte>, n: nat)
    requires n <= |p| && CollectedItems(p, n).Some?
    ensures var (items, end) := CollectedItems(p, n).value; ItemsStand(p, n, items, end) && AreItems(items)
  {
    if n < |p| && p[n] == CLOSE {
      ItemsWereWritten(p, n + 1);
      var more := ClassItems(p, n + 1).value.0;
      assert ([(CLOSE, false)] + more)[1..] == more;
    } else {
      ItemsWereWritten(p, n);
    }
  }

  predicate BracketStands(p: seq<Byte>, i: nat, mark: seq<Byte>, items: seq<Item>, end: nat) {
    i < |p| && p[i] == OPEN && Holds(p, i + 1, mark) && ItemsStand(p, i + 1 + |mark|, items, end)
  }

  lemma StartIs(p: seq<Byte>, i: nat, mark: seq<Byte>, first: Item)
    requires i + |mark| < |p| && Holds(p, i, mark) && p[i + |mark|] == WrittenItem(first)[0]
    requires mark == [] || mark == [BANG] || mark == [CARET]
    requires mark == [] ==> first != (BANG, false) && first != (CARET, false)
    ensures ClassStart(p, i) == i + |mark|
  {
    if mark != [] {
      assert mark[0] == p[i + 0];
    }
  }

  lemma BracketIsRead(p: seq<Byte>, i: nat, mark: seq<Byte>, items: seq<Item>, end: nat)
    requires BracketStands(p, i, mark, items, end) && IsBracket(mark, items)
    ensures ParsedClass(p, i + 1) == Some((ByteClass(mark != [], ClassRanges(items, 0)), end + 1))
  {
    ItemsAreCollected(p, i + 1 + |mark|, items, end);
    StartIs(p, i + 1, mark, items[0]);
    CollectedIs(p, i + 1);
  }

  lemma BracketWasWritten(p: seq<Byte>, i: nat) returns (mark: seq<Byte>, items: seq<Item>, end: nat)
    requires i < |p| && p[i] == OPEN && ParsedClass(p, i + 1).Some?
    ensures BracketStands(p, i, mark, items, end) && IsBracket(mark, items)
  {
    var n := ClassStart(p, i + 1);
    CollectedIs(p, i + 1);
    mark := p[i + 1..n];
    items, end := CollectedItems(p, n).value.0, CollectedItems(p, n).value.1;
    ItemsWereCollected(p, n);
    ItemsAreCollected(p, n, items, end);
  }

  lemma HoldsOne(p: seq<Byte>, m: nat, b: Byte)
    ensures Holds(p, m, [b]) <==> m < |p| && p[m] == b
  {
    if Holds(p, m, [b]) {
      assert [b][0] == p[m + 0];
    }
  }

  lemma HoldsBoth(p: seq<Byte>, m: nat, a: seq<Byte>, b: seq<Byte>)
    ensures Holds(p, m, a + b) <==> Holds(p, m, a) && Holds(p, m + |a|, b)
  {
    if Holds(p, m, a + b) {
      HoldsParts(p, m, a, b);
    }
  }

  lemma {:induction false} ItemsHold(p: seq<Byte>, i: nat, items: seq<Item>, end: nat)
    ensures ItemsStand(p, i, items, end) <==> end == i + |WrittenItems(items)| && Holds(p, i, WrittenItems(items) + [CLOSE])
    decreases |items|
  {
    if items == [] {
      NoneLeft([CLOSE]);
      HoldsOne(p, i, CLOSE);
    } else {
      var text, more := WrittenItem(items[0]), WrittenItems(items[1..]);
      Assoc(text, more, [CLOSE]);
      HoldsBoth(p, i, text, more + [CLOSE]);
      ItemsHold(p, i + |text|, items[1..], end);
    }
  }

  lemma BracketHolds(p: seq<Byte>, i: nat, mark: seq<Byte>, items: seq<Item>, end: nat)
    ensures BracketStands(p, i, mark, items, end) <==>
            end + 1 == i + |Bracketed(mark, items)| && Holds(p, i, Bracketed(mark, items))
  {
    var front, text := [OPEN] + mark, WrittenItems(items);
    Assoc(front, text, [CLOSE]);
    HoldsBoth(p, i, front, text + [CLOSE]);
    HoldsBoth(p, i, [OPEN], mark);
    ItemsHold(p, i + |front|, items, end);
    HoldsOne(p, i, OPEN);
  }

  lemma ClassIsRead(p: seq<Byte>, i: nat, e: Element)
    requires IsClass(e) && Holds(p, i, Written(e))
    ensures i < |p| && ParsedClass(p, i + 1) == Some((ByteClass(e.mark != [], RangesOf(e.members)), i + |Written(e)|))
  {
    var items, end := ItemsOf(e.members), i + |Written(e)| - 1;
    BracketHolds(p, i, e.mark, items, end);
    BracketIsRead(p, i, e.mark, items, end);
    assert items[0..] == items;
    MembersAreRead(items, 0, e.members, false);
  }

  lemma ClassWasWritten(p: seq<Byte>, i: nat) returns (e: Element)
    requires i < |p| && p[i] == OPEN && ParsedClass(p, i + 1).Some?
    ensures IsClass(e) && Holds(p, i, Written(e)) && ParsedClass(p, i + 1).value.1 == i + |Written(e)|
  {
    var mark, items, end := BracketWasWritten(p, i);
    BracketIsRead(p, i, mark, items, end);
    BracketHolds(p, i, mark, items, end);
    var members := MembersWereWritten(items, 0, false);
    assert items[0..] == items;
    e := Class(mark, members);
  }

  lemma PrefixHolds(p: seq<Byte>, i: nat, text: seq<Byte>)
    requires i <= |p|
    ensures text <= p[i..] <==> Holds(p, i, text)
  {
    if text <= p[i..] {
      forall k | 0 <= k < |text| ensures text[k] == p[i + k] {
        assert p[i..][k] == text[k];
      }
    }
  }

  /** A class starts where one is read. */
  lemma ClassStarts(p: seq<Byte>, i: nat)
    requires i < |p| && p[i] == OPEN
    ensures StartsClass(p[i..]) <==> ParsedClass(p, i + 1).Some?
  {
    if StartsClass(p[i..]) {
      var e :| IsClass(e) && Written(e) <= p[i..];
      PrefixHolds(p, i, Written(e));
      ClassIsRead(p, i, e);
    }
    if ParsedClass(p, i + 1).Some? {
      var e := ClassWasWritten(p, i);
      PrefixHolds(p, i, Written(e));
    }
  }

  /** The token an element is read as. */
  function TokenOf(e: Element): Token {
    match e
    case Star => AnyBytes
    case Question => AnyByte
    case Ordinary(b) => Literal(b)
    case Escaped(b) => Literal(b)
    case Class(mark, members) => OneOf(ByteClass(mark != [], RangesOf(members)))
    case LooseOpen => Literal(OPEN)
    case LooseSlash => Literal(BACKSLASH)
  }

  function TokensOf(es: seq<Element>): seq<Token> {
    if es == [] then [] else [TokenOf(es[0])] + TokensOf(es[1..])
  }

  lemma RestAfter(p: seq<Byte>, i: nat, text: seq<Byte>, rest: seq<Byte>)
    requires i <= |p|
    ensures p[i..] == text + rest <==> Holds(p, i, text) && p[i + |text|..] == rest
  {
    if p[i..] == text + rest {
      PrefixHolds(p, i, text);
      assert p[i + |text|..] == p[i..][|text|..];
    }
    if Holds(p, i, text) && p[i + |text|..] == rest {
      assert p[i..i + |text|] == text;
      assert p[i..] == p[i..i + |text|] + p[i + |text|..];
    }
  }

  lemma OpenToken(p: seq<Byte>, i: nat)
    requires i < |p| && p[i] == OPEN
    ensures TokenAt(p, i) == match ParsedClass(p, i + 1)
                             case None => (Literal(OPEN), i + 1)
                             case Some((members, next)) => (OneOf(members), next)
  {
  }

  lemma OpenIsRead(p: seq<Byte>, i: nat, e: Element, rest: seq<Byte>)
    requires Holds(p, i, Written(e)) && p[i + |Written(e)|..] == rest && MayStand(e, rest) && (e.Class? || e.LooseOpen?)
    ensures TokenAt(p, i) == (TokenOf(e), i + |Written(e)|)
  {
    assert Written(e)[0] == p[i + 0];
    OpenToken(p, i);
    if e.Class? {
      ClassIsRead(p, i, e);
    } else {
      RestAfter(p, i, [OPEN], rest);
      ClassStarts(p, i);
    }
  }

  lemma ElementIsRead(p: seq<Byte>, i: nat, e: Element, rest: seq<Byte>)
    requires Holds(p, i, Written(e)) && p[i + |Written(e)|..] == rest && MayStand(e, rest)
    ensures TokenAt(p, i) == (TokenOf(e), i + |Written(e)|)
  {
    if e.Class? || e.LooseOpen? {
      OpenIsRead(p, i, e, rest);
    } else {
      assert Written(e)[0] == p[i + 0];
      if e.Escaped? {
        assert Written(e)[1] == p[i + 1];
      }
    }
  }

  lemma OpenWasWritten(p: seq<Byte>, i: nat) returns (e: Element)
    requires i < |p| && p[i] == OPEN
    ensures Holds(p, i, Written(e)) && TokenAt(p, i).1 == i + |Written(e)| && MayStand(e, p[i + |Written(e)|..])
  {
    OpenToken(p, i);
    if ParsedClass(p, i + 1).Some? {
      e := ClassWasWritten(p, i);
    } else {
      e := LooseOpen;
      ClassStarts(p, i);
      assert p[i..] == [OPEN] + p[i + 1..];
    }
  }

  lemma ElementWasWritten(p: seq<Byte>, i: nat) returns (e: Element)
    requires i < |p|
    ensures Holds(p, i, Written(e)) && TokenAt(p, i).1 == i + |Written(e)| && MayStand(e, p[i + |Written(e)|..])
  {
    if p[i] == OPEN {
      e := OpenWasWritten(p, i);
    } else if p[i] == BACKSLASH {
      e := if i + 1 < |p| then Escaped(p[i + 1]) else LooseSlash;
    } else {
      e := if p[i] == STAR then Star else if p[i] == QUESTION then Question else Ordinary(p[i]);
    }
  }

  /** The element at `i`, and where the next one starts. */
  lemma FirstIsRead(p: seq<Byte>, i: nat, es: seq<Element>) returns (next: nat)
    requires es != [] && AreElements(es) && i <= |p| && p[i..] == WrittenAll(es)
    ensures AreElements(es[1..]) && i < next <= |p| && p[next..] == WrittenAll(es[1..])
    ensures TokenAt(p, i) == (TokenOf(es[0]), next)
  {
    next := StandingIsRead(p, i, es[0], WrittenAll(es[1..]));
  }

  lemma StandingIsRead(p: seq<Byte>, i: nat, e: Element, rest: seq<Byte>) returns (next: nat)
    requires i <= |p| && p[i..] == Written(e) + rest && MayStand(e, rest)
    ensures i < next <= |p| && p[next..] == rest && TokenAt(p, i) == (TokenOf(e), next)
  {
    next := i + |Written(e)|;
    RestAfter(p, i, Written(e), rest);
    ElementIsRead(p, i, e, rest);
  }

  lemma {:induction false} ElementsAreRead(p: seq<Byte>, i: nat, es: seq<Element>)
    requires i <= |p| && p[i..] == WrittenAll(es) && AreElements(es)
    ensures Tokens(p, i) == TokensOf(es)
    decreases |es|
  {
    if es == [] {
      assert |p[i..]| == 0;
    } else {
      var next := FirstIsRead(p, i, es);
      ElementsAreRead(p, next, es[1..]);
    }
  }

  lemma {:induction false} ElementsWereWritten(p: seq<Byte>, i: nat) returns (es: seq<Element>)
    requires i <= |p|
    ensures AreElements(es) && p[i..] == WrittenAll(es)
    decreases |p| - i
  {
    if i == |p| {
      es := [];
    } else {
      var e := ElementWasWritten(p, i);
      var rest := ElementsWereWritten(p, i + |Written(e)|);
      RestAfter(p, i, Written(e), WrittenAll(rest));
      es := [e] + rest;
      assert es[1..] == rest;
    }
  }

  // ----- What patterns match -----

  /** Every pattern is written from elements. */
  lemma EveryPatternIsWritten(p: seq<Byte>) returns (es: seq<Element>)
    ensures AreElements(es) && WrittenAll(es) == p
  {
    es := ElementsWereWritten(p, 0);
    assert p[0..] == p;
  }

  lemma {:induction false} TokensMean(es: seq<Element>, s: seq<Byte>)
    ensures Matches(TokensOf(es), s) <==> Means(es, s)
    decreases |es|
  {
    if es != [] {
      var tokens, rest := TokensOf(es), es[1..];
      assert tokens[1..] == TokensOf(rest);
      forall k | 0 <= k <= |s| ensures Matches(TokensOf(rest), s[k..]) <==> Means(rest, s[k..]) {
        TokensMean(rest, s[k..]);
      }
      if !es[0].Star? {
        OneByte(es[0], s);
        if s != [] {
          assert Matches(TokensOf(rest), s[1..]) <==> Means(rest, s[1..]);
        }
      }
    }
  }

  lemma ClassHolds(e: Element, b: Byte)
    requires e.Class?
    ensures TokenOf(e).Accepts(b) <==> (Listed(e.members, b) <==> e.mark == [])
  {
    var ranges := RangesOf(e.members);
    RangesAreMembers(e.members, b);
    var members := ByteClass(e.mark != [], ranges);
    assert TokenOf(e) == OneOf(members);
    assert members.Contains(b) == (Covered(ranges, b) != members.negated);
  }

  /** All elements but `*` stand for one byte. */
  lemma OneByte(e: Element, s: seq<Byte>)
    requires !e.Star?
    ensures forall k :: 0 <= k <= |s| && StandsFor(e, s[..k]) ==> k == 1
    ensures s != [] ==> (StandsFor(e, s[..1]) <==> TokenOf(e).Accepts(s[0]))
  {
    if s != [] {
      assert s[..1] == [s[0]];
      if e.Class? {
        ClassHolds(e, s[0]);
      }
    }
  }

  /** The matcher's meaning of a pattern is the meaning of what is written there. */
  lemma PatternMeans(es: seq<Element>, s: seq<Byte>)
    requires AreElements(es)
    ensures Matches(Compile(WrittenAll(es)), s) <==> Means(es, s)
  {
    var p := WrittenAll(es);
    assert p[0..] == p;
    ElementsAreRead(p, 0, es);
    MergeStarsKeepsMeaning(Tokens(p, 0), s);
    TokensMean(es, s);
  }
}
