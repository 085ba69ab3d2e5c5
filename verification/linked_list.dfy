/** Decimal rendering of integers, as `Number.prototype.toString()` writes
    an integral number, and the parser that reads it back. */
module Decimal {

  predicate IsDigit(c: char)
  {
    '0' <= c <= '9'
  }

  function DigitChar(d: nat): (c: char)
    requires d < 10
    ensures IsDigit(c)
  {
    ['0', '1', '2', '3', '4', '5', '6', '7', '8', '9'][d]
  }

  function DigitValue(c: char): (d: nat)
    requires IsDigit(c)
    ensures d < 10 && DigitChar(d) == c
  {
    (c as int - '0' as int) as nat
  }

  /** The decimal digits of `n`, most significant first, with no leading zero. */
  function NatToString(n: nat): (s: string)
    ensures |s| > 0 && forall i :: 0 <= i < |s| ==> IsDigit(s[i])
    ensures |s| > 1 || n > 0 ==> s[0] != '0'
  {
    if n < 10 then [DigitChar(n)] else NatToString(n / 10) + [DigitChar(n % 10)]
  }

  /** A leading `-` for negative numbers, then the digits of the magnitude. */
  function IntToString(n: int): (s: string)
    ensures |s| > 0
    ensures forall i :: 0 <= i < |s| ==> s[i] == '-' || IsDigit(s[i])
    ensures s[0] == '-' <==> n < 0
    ensures forall i :: 0 < i < |s| ==> IsDigit(s[i])
    ensures n >= 0 && |s| > 1 ==> s[0] != '0'
    ensures n < 0 ==> |s| >= 2 && s[1] != '0'
  {
    if n < 0 then "-" + NatToString(-n) else NatToString(n)
  }

  /** Reads a string of digits; the empty string reads as 0. */
  function ParseNat(s: string): nat
    requires forall i :: 0 <= i < |s| ==> IsDigit(s[i])
  {
    if |s| == 0 then 0 else ParseNat(s[..|s| - 1]) * 10 + DigitValue(s[|s| - 1])
  }

  /** Reads an optional `-` followed by digits. */
  function ParseInt(s: string): int
    requires forall i :: 0 <= i < |s| ==> s[i] == '-' || IsDigit(s[i])
    requires forall i :: 0 < i < |s| ==> IsDigit(s[i])
  {
    if |s| > 0 && s[0] == '-' then -(ParseNat(s[1..]) as int) else ParseNat(s)
  }

  lemma {:induction false} ParseNatToString(n: nat)
    ensures ParseNat(NatToString(n)) == n
  {
    if n >= 10 {
      var s := NatToString(n);
      assert s[..|s| - 1] == NatToString(n / 10);
      ParseNatToString(n / 10);
    }
  }

  /** Rendering then reading an integer gives the integer back. */
  lemma ParseIntToString(n: int)
    ensures forall i :: 0 < i < |IntToString(n)| ==> IsDigit(IntToString(n)[i])
    ensures ParseInt(IntToString(n)) == n
  {
    var m := if n < 0 then -n else n;
    ParseNatToString(m);
    if n < 0 {
      assert IntToString(n)[1..] == NatToString(m);
    }
  }
}

/** Joining strings with a separator, and splitting them apart again. */
module Separated {

  /** The separator `getListAsString` passes to `join`. */
  const Sep: string := " , "

  /** The combined length of `parts`. */
  function TotalLength(parts: seq<string>): nat
  {
    if parts == [] then 0 else |parts[0]| + TotalLength(parts[1..])
  }

  /** `Array.prototype.join`: separators only between consecutive parts, so
      the text is the parts' characters plus one separator per gap. */
  function Join(parts: seq<string>, sep: string): (s: string)
    ensures |parts| == 0 ==> s == ""
    ensures |parts| == 1 ==> s == parts[0]
    ensures |parts| > 0 ==> |s| == TotalLength(parts) + (|parts| - 1) * |sep|
  {
    if |parts| == 0 then ""
    else if |parts| == 1 then parts[0]
    else parts[0] + sep + Join(parts[1..], sep)
  }

  predicate NoSpace(s: string)
  {
    forall i :: 0 <= i < |s| ==> s[i] != ' '
  }

  /** Splits `s` at every occurrence of `Sep`, the current part so far
      being `cur`. */
  function SplitFrom(s: string, cur: string): (parts: seq<string>)
    ensures |parts| > 0
    decreases |s|
  {
    if |s| == 0 then [cur]
    else if |s| >= |Sep| && s[..|Sep|] == Sep then [cur] + SplitFrom(s[|Sep|..], "")
    else SplitFrom(s[1..], cur + [s[0]])
  }

  /** A part with no space in it holds no separator: it is carried over
      whole into the current part. */
  lemma {:induction false} SplitSkipsPart(t: string, rest: string, cur: string)
    requires NoSpace(t)
    ensures SplitFrom(t + rest, cur) == SplitFrom(rest, cur + t)
    decreases |t|
  {
    if |t| > 0 {
      var s := t + rest;
      assert s[0] == t[0] != ' ' == Sep[0];
      assert s[1..] == t[1..] + rest;
      SplitSkipsPart(t[1..], rest, cur + [t[0]]);
      assert cur + [t[0]] + t[1..] == cur + t;
    } else {
      assert t + rest == rest && cur + t == cur;
    }
  }

  /** Splitting a join of space-free parts recovers the parts. */
  lemma {:induction false} SplitJoin(parts: seq<string>)
    requires |parts| > 0
    requires forall i :: 0 <= i < |parts| ==> NoSpace(parts[i])
    ensures SplitFrom(Join(parts, Sep), "") == parts
    decreases |parts|
  {
    if |parts| == 1 {
      SplitSkipsPart(parts[0], "", "");
      assert parts[0] + "" == parts[0];
    } else {
      var tail := Join(parts[1..], Sep);
      assert Join(parts, Sep) == parts[0] + (Sep + tail);
      SplitSkipsPart(parts[0], Sep + tail, "");
      assert "" + parts[0] == parts[0];
      assert (Sep + tail)[..|Sep|] == Sep && (Sep + tail)[|Sep|..] == tail;
      SplitJoin(parts[1..]);
      assert parts == [parts[0]] + parts[1..];
    }
  }

  /** A join of several parts starts with the first part. */
  lemma JoinStartsWithFirst(parts: seq<string>)
    requires |parts| > 0
    ensures |Join(parts, Sep)| >= |parts[0]|
    ensures Join(parts, Sep)[..|parts[0]|] == parts[0]
  {
  }

  /** A join of non-empty parts begins with the first character of the
      first part and ends with the last character of the last part. */
  lemma {:induction false} JoinEdges(parts: seq<string>)
    requires |parts| > 0
    requires forall i :: 0 <= i < |parts| ==> |parts[i]| > 0
    ensures var j := Join(parts, Sep);
            |j| > 0 && j[0] == parts[0][0] && j[|j| - 1] == parts[|parts| - 1][|parts[|parts| - 1]| - 1]
    decreases |parts|
  {
    if |parts| > 1 {
      JoinEdges(parts[1..]);
      var tail := Join(parts[1..], Sep);
      assert Join(parts, Sep) == parts[0] + Sep + tail;
      assert parts[1..][|parts| - 2] == parts[|parts| - 1];
    }
  }
}

/** The singly linked list of numbers with push-front and a string
    rendering. The nullable `next` pointers become the `Chain` datatype;
    `size` is the separately maintained counter. */
module LinkedLists {
  import opened Decimal
  import opened Separated

  datatype Chain = Null | Link(value: int, next: Chain)

  datatype LinkedList = LinkedList(head: Chain, size: int) {
    /** The counter agrees with the number of nodes reachable from `head`. */
    ghost predicate Valid()
    {
      size == |Values(head)|
    }
  }

  /** The values met when following `next` from a node, in that order. */
  function Values(c: Chain): seq<int>
  {
    match c
    case Null => []
    case Link(v, next) => [v] + Values(next)
  }

  /** A fresh list: no head, counter 0. */
  function Empty(): (l: LinkedList)
    ensures l.Valid() && Values(l.head) == []
  {
    LinkedList(Null, 0)
  }

  /** A new node holding `value` becomes the head, pointing at the old head. */
  function AddToFront(l: LinkedList, value: int): (r: LinkedList)
    ensures r.head.Link? && r.head.value == value
    ensures Values(r.head) == [value] + Values(l.head)
    ensures r.size == l.size + 1
    ensures l.Valid() ==> r.Valid()
  {
    var node := if l.head == Null then Link(value, Null) else Link(value, l.head);
    LinkedList(node, l.size + 1)
  }

  function GetSize(l: LinkedList): (n: int)
    ensures l.Valid() ==> n == |Values(l.head)|
  {
    l.size
  }

  /** The decimal renderings of `vs`, in order. */
  function Strings(vs: seq<int>): (ss: seq<string>)
    ensures |ss| == |vs|
    ensures forall i :: 0 <= i < |vs| ==> ss[i] == IntToString(vs[i])
  {
    if vs == [] then [] else [IntToString(vs[0])] + Strings(vs[1..])
  }

  lemma StringsCons(v: int, rest: seq<int>)
    ensures Strings([v] + rest) == [IntToString(v)] + Strings(rest)
  {
    assert ([v] + rest)[1..] == rest;
  }

  /** What `getListAsString` returns: the values from the head onwards,
      each rendered in decimal, joined by `Sep`. */
  function Render(l: LinkedList): string
  {
    Join(Strings(Values(l.head)), Sep)
  }

  /** Walks the chain from `head`, collecting each value's decimal text,
      then joins them with `Sep`. */
  method GetListAsString(l: LinkedList) returns (s: string)
    ensures s == Render(l)
  {
    var current := l.head;
    var elements: seq<string> := [];
    while current != Null
      invariant elements + Strings(Values(current)) == Strings(Values(l.head))
      decreases current
    {
      StringsCons(current.value, Values(current.next));
      assert elements + [IntToString(current.value)] + Strings(Values(current.next))
          == elements + Strings(Values(current));
      elements := elements + [IntToString(current.value)];
      current := current.next;
    }
    assert elements == Strings(Values(l.head));
    s := Join(elements, Sep);
  }

  /** Reads a rendering back into the list of values it shows. */
  function ParseList(s: string): seq<int>
  {
    if s == [] then []
    else
      var parts := SplitFrom(s, "");
      seq(|parts|, i requires 0 <= i < |parts| =>
        if IsNumeral(parts[i]) then ParseInt(parts[i]) else 0)
  }

  predicate IsNumeral(s: string)
  {
    && (forall i :: 0 <= i < |s| ==> s[i] == '-' || IsDigit(s[i]))
    && (forall i :: 0 < i < |s| ==> IsDigit(s[i]))
  }

  /** The rendering loses nothing: it reads back as the values from the
      head onwards, so it lists exactly those values, in that order. */
  lemma RenderParses(l: LinkedList)
    ensures ParseList(Render(l)) == Values(l.head)
  {
    var vs := Values(l.head);
    var ss := Strings(vs);
    if vs == [] {
      return;
    }
    forall i | 0 <= i < |ss|
      ensures NoSpace(ss[i]) && IsNumeral(ss[i]) && ParseInt(ss[i]) == vs[i]
    {
      ParseIntToString(vs[i]);
    }
    SplitJoin(ss);
    assert Render(l) != [] by {
      JoinStartsWithFirst(ss);
    }
  }

  /** A rendering never begins or ends with (a piece of) the separator:
      its first and last characters are a sign or a digit. */
  lemma RenderHasNoOuterSeparator(l: LinkedList)
    ensures var s := Render(l);
            s == [] || (s[0] != ' ' && s[0] != ',' && s[|s| - 1] != ' ' && s[|s| - 1] != ',')
  {
    var ss := Strings(Values(l.head));
    if ss != [] {
      JoinEdges(ss);
    }
  }

  /** The empty list renders as the empty string. */
  lemma RenderEmpty()
    ensures Render(Empty()) == ""
  {
  }

  /** After `AddToFront(value)` the rendering starts with the text of
      `value`; it is that text alone for a list that was empty, and that
      text, one separator and the old rendering otherwise. */
  lemma RenderAddToFront(l: LinkedList, value: int)
    ensures Values(l.head) == [] ==> Render(AddToFront(l, value)) == IntToString(value)
    ensures Values(l.head) != [] ==>
      Render(AddToFront(l, value)) == IntToString(value) + Sep + Render(l)
    ensures Render(AddToFront(l, value))[..|IntToString(value)|] == IntToString(value)
  {
    var ss := Strings(Values(AddToFront(l, value).head));
    assert ss == [IntToString(value)] + Strings(Values(l.head));
    assert ss[1..] == Strings(Values(l.head));
    JoinStartsWithFirst(ss);
  }

  /** Pushes the values of `vs` to the front one after the other. */
  function AddAll(l: LinkedList, vs: seq<int>): (r: LinkedList)
    ensures r.size == l.size + |vs|
    decreases |vs|
  {
    if vs == [] then l else AddAll(AddToFront(l, vs[0]), vs[1..])
  }

  function Reverse(vs: seq<int>): (r: seq<int>)
    ensures |r| == |vs|
    ensures forall i :: 0 <= i < |vs| ==> r[i] == vs[|vs| - 1 - i]
  {
    if vs == [] then [] else Reverse(vs[1..]) + [vs[0]]
  }

  /** The list shows the pushed values most recent first, ahead of what
      was there, and the counter keeps counting the nodes. */
  lemma {:induction false} AddAllReverses(l: LinkedList, vs: seq<int>)
    ensures Values(AddAll(l, vs).head) == Reverse(vs) + Values(l.head)
    ensures l.Valid() ==> AddAll(l, vs).Valid()
    decreases |vs|
  {
    if vs != [] {
      AddAllReverses(AddToFront(l, vs[0]), vs[1..]);
      assert Reverse(vs) == Reverse(vs[1..]) + [vs[0]];
    }
  }

  /** Built from empty, the list holds the pushed values in reverse order,
      renders them separated by `Sep`, and counts them. */
  lemma BuiltListReversed(vs: seq<int>)
    ensures Values(AddAll(Empty(), vs).head) == Reverse(vs)
    ensures GetSize(AddAll(Empty(), vs)) == |vs|
    ensures ParseList(Render(AddAll(Empty(), vs))) == Reverse(vs)
  {
    AddAllReverses(Empty(), vs);
    assert Reverse(vs) + [] == Reverse(vs);
    RenderParses(AddAll(Empty(), vs));
  }
}
