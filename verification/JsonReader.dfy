/** The strict reader: RFC 8259 sections 2 to 7 as `json.loads` applies them, with the hooks that
    keep number tokens verbatim, refuse a repeated key, and refuse NaN and Infinity. */
module JsonReader {
  import opened Prelude
  import opened Utf8
  import opened JsonNumber
  import opened Json

  datatype ReadError = NotUtf8 | Malformed | DuplicateKey | TooDeep | BadReadLimit

  /** What one scanner leaves behind: its value and the text after it. */
  datatype Scan<+T> = Done(value: T, rest: Text) | Fail(error: ReadError)

  predicate IsSpace(c: CodePoint) {
    c == 0x20 || c == 0x09 || c == 0x0A || c == 0x0D
  }

  function SkipSpace(s: Text): (rest: Text)
    ensures |rest| <= |s|
  {
    if s != [] && IsSpace(s[0]) then SkipSpace(s[1..]) else s
  }

  // Strings

  function HexValue(c: CodePoint): Option<nat> {
    if 0x30 <= c <= 0x39 then Some(c - 0x30)
    else if 0x61 <= c <= 0x66 then Some(c - 0x61 + 10)
    else if 0x41 <= c <= 0x46 then Some(c - 0x41 + 10)
    else None
  }

  function HexQuad(s: Text): (n: Option<CodePoint>)
    ensures n.Some? ==> |s| >= 4 && n.value < 0x10000
  {
    if |s| < 4 then None
    else
      match (HexValue(s[0]), HexValue(s[1]), HexValue(s[2]), HexValue(s[3]))
      case (Some(a), Some(b), Some(c), Some(d)) =>
        if a < 16 && b < 16 && c < 16 && d < 16 then Some(a * 0x1000 + b * 0x100 + c * 0x10 + d) else None
      case _ => None
  }

  function ShortEscape(c: CodePoint): Option<CodePoint> {
    if c == 0x22 || c == 0x5C || c == 0x2F then Some(c)
    else if c == 0x62 then Some(0x08)
    else if c == 0x66 then Some(0x0C)
    else if c == 0x6E then Some(0x0A)
    else if c == 0x72 then Some(0x0D)
    else if c == 0x74 then Some(0x09)
    else None
  }

  /** The character after a backslash; two escaped surrogates that pair up give one character. */
  function ScanEscape(s: Text): (r: Scan<CodePoint>)
    ensures r.Done? ==> |r.rest| < |s|
  {
    if s == [] then Fail(Malformed)
    else if s[0] != 0x75 then
      match ShortEscape(s[0])
      case None => Fail(Malformed)
      case Some(c) => Done(c, s[1..])
    else
      match HexQuad(s[1..])
      case None => Fail(Malformed)
      case Some(high) =>
        if 0xD800 <= high < 0xDC00 && |s| >= 7 && s[5] == 0x5C && s[6] == 0x75 then
          match HexQuad(s[7..])
          case None => Fail(Malformed)
          case Some(low) =>
            if 0xDC00 <= low < 0xE000 then
              Done(0x10000 + (high - 0xD800) * 0x400 + (low - 0xDC00), s[11..])
            else Done(high, s[5..])
        else Done(high, s[5..])
  }

  /** The rest of a string, s being the text after its opening quote. */
  function ScanString(s: Text): (r: Scan<Text>)
    ensures r.Done? ==> |r.rest| < |s|
    decreases |s|
  {
    if s == [] || s[0] < 0x20 then Fail(Malformed)
    else if s[0] == 0x22 then Done([], s[1..])
    else
      var head := if s[0] == 0x5C then ScanEscape(s[1..]) else Done(s[0], s[1..]);
      match head
      case Fail(e) => Fail(e)
      case Done(c, rest) =>
        match ScanString(rest)
        case Fail(e) => Fail(e)
        case Done(tail, after) => Done([c] + tail, after)
  }

  // Values

  predicate StartsWith(s: Text, token: Text) {
    |token| <= |s| && s[..|token|] == token
  }

  /** The dict that the object hook builds, or its refusal of a repeated key. */
  function BuildObject(members: seq<Member>, rest: Text): Scan<Json> {
    if DistinctKeys(members) then Done(Obj(members), rest) else Fail(DuplicateKey)
  }

  /** `scan_once`: the value at the head of s. NaN, Infinity and -Infinity end as Malformed, which
      stands for the refusal of their hook too. */
  function ScanValue(s: Text): (r: Scan<Json>)
    ensures r.Done? ==> |r.rest| < |s|
    decreases |s|, 1
  {
    if s == [] then Fail(Malformed)
    else if s[0] == 0x22 then
      match ScanString(s[1..])
      case Fail(e) => Fail(e)
      case Done(t, rest) => Done(Str(t), rest)
    else if s[0] == 0x5B then
      var inner := SkipSpace(s[1..]);
      if inner != [] && inner[0] == 0x5D then Done(Arr([]), inner[1..])
      else
        match ScanItems(inner)
        case Fail(e) => Fail(e)
        case Done(items, rest) => Done(Arr(items), rest)
    else if s[0] == 0x7B then
      var inner := SkipSpace(s[1..]);
      if inner != [] && inner[0] == 0x7D then Done(Obj([]), inner[1..])
      else
        match ScanMembers(inner)
        case Fail(e) => Fail(e)
        case Done(members, rest) => BuildObject(members, rest)
    else if s[0] == 0x6E && StartsWith(s, NULL_TOKEN) then Done(Null, s[4..])
    else if s[0] == 0x74 && StartsWith(s, TRUE_TOKEN) then Done(Bool(true), s[4..])
    else if s[0] == 0x66 && StartsWith(s, FALSE_TOKEN) then Done(Bool(false), s[5..])
    else
      var n := NumberLength(s);
      if n == 0 then Fail(Malformed) else Done(Number(s[..n]), s[n..])
  }

  /** The items of a nonempty array and its closing bracket. */
  function ScanItems(s: Text): (r: Scan<seq<Json>>)
    ensures r.Done? ==> |r.rest| < |s|
    decreases |s|, 2
  {
    match ScanValue(s)
    case Fail(e) => Fail(e)
    case Done(head, rest) =>
      var after := SkipSpace(rest);
      if after == [] then Fail(Malformed)
      else if after[0] == 0x5D then Done([head], after[1..])
      else if after[0] != 0x2C then Fail(Malformed)
      else
        match ScanItems(SkipSpace(after[1..]))
        case Fail(e) => Fail(e)
        case Done(tail, end) => Done([head] + tail, end)
  }

  /** A key, its colon and its value. */
  function ScanMember(s: Text): (r: Scan<Member>)
    ensures r.Done? ==> |r.rest| < |s|
    decreases |s|, 0
  {
    if s == [] || s[0] != 0x22 then Fail(Malformed)
    else
      match ScanString(s[1..])
      case Fail(e) => Fail(e)
      case Done(key, rest) =>
        var colon := SkipSpace(rest);
        if colon == [] || colon[0] != 0x3A then Fail(Malformed)
        else
          match ScanValue(SkipSpace(colon[1..]))
          case Fail(e) => Fail(e)
          case Done(value, after) => Done(Keyed(key, value), after)
  }

  /** The members of a nonempty object and its closing brace. */
  function ScanMembers(s: Text): (r: Scan<seq<Member>>)
    ensures r.Done? ==> |r.rest| < |s|
    decreases |s|, 2
  {
    match ScanMember(s)
    case Fail(e) => Fail(e)
    case Done(head, rest) =>
      var after := SkipSpace(rest);
      if after == [] then Fail(Malformed)
      else if after[0] == 0x7D then Done([head], after[1..])
      else if after[0] != 0x2C then Fail(Malformed)
      else
        match ScanMembers(SkipSpace(after[1..]))
        case Fail(e) => Fail(e)
        case Done(tail, end) => Done([head] + tail, end)
  }

  /** `json.loads(text)` with the hooks: one value and nothing but space around it. */
  function ReadText(s: Text): Result<Json, ReadError> {
    match ScanValue(SkipSpace(s))
    case Fail(e) => Err(e)
    case Done(v, rest) => if SkipSpace(rest) == [] then Ok(v) else Err(Malformed)
  }

  /** `strict_json_loads` on bytes, its depth walk replaced by what the walk decides. */
  function Loads(data: Bytes, limit: int): Result<Json, ReadError> {
    if limit < 1 then Err(BadReadLimit)
    else
      match Decode(data)
      case None => Err(NotUtf8)
      case Some(text) =>
        match ReadText(text)
        case Err(e) => Err(e)
        case Ok(v) => if Height(v) > limit then Err(TooDeep) else Ok(v)
  }

  // The depth walk with its explicit stack

  function Size(v: Json): (n: nat)
    ensures n > 0
    decreases v, 1
  {
    1 + TotalSize(v, Children(v))
  }

  function TotalSize(parent: Json, children: seq<Json>): nat
    requires forall i :: 0 <= i < |children| ==> children[i] < parent
    decreases parent, 0, |children|
  {
    if children == [] then 0 else Size(children[0]) + TotalSize(parent, children[1..])
  }

  datatype Entry = Entry(item: Json, depth: nat)

  function StackSize(stack: seq<Entry>): nat {
    if stack == [] then 0 else StackSize(stack[..|stack| - 1]) + Size(stack[|stack| - 1].item)
  }

  predicate Within(entry: Entry, limit: nat) {
    entry.depth + Height(entry.item) <= limit || !IsContainer(entry.item)
  }

  predicate AllWithin(stack: seq<Entry>, limit: nat) {
    forall i :: 0 <= i < |stack| ==> Within(stack[i], limit)
  }

  function Entries(children: seq<Json>, depth: nat): (entries: seq<Entry>)
    ensures |entries| == |children|
    ensures forall i :: 0 <= i < |children| ==> entries[i] == Entry(children[i], depth)
  {
    seq(|children|, i requires 0 <= i < |children| => Entry(children[i], depth))
  }

  lemma {:induction false} StackSizeExtends(stack: seq<Entry>, parent: Json, children: seq<Json>, depth: nat)
    requires forall i :: 0 <= i < |children| ==> children[i] < parent
    ensures StackSize(stack + Entries(children, depth)) == StackSize(stack) + TotalSize(parent, children)
    decreases |children|
  {
    if children == [] {
      assert stack + Entries(children, depth) == stack;
    } else {
      var first := Entry(children[0], depth);
      assert stack + Entries(children, depth) == (stack + [first]) + Entries(children[1..], depth);
      assert (stack + [first])[..|stack|] == stack;
      StackSizeExtends(stack + [first], parent, children[1..], depth);
    }
  }

  lemma {:induction false} MaxHeightBounds(parent: Json, children: seq<Json>, bound: nat)
    requires forall i :: 0 <= i < |children| ==> children[i] < parent
    ensures MaxHeight(parent, children) <= bound <==> forall i :: 0 <= i < |children| ==> Height(children[i]) <= bound
    decreases |children|
  {
    if children != [] {
      MaxHeightBounds(parent, children[1..], bound);
      assert children == [children[0]] + children[1..];
    }
  }

  lemma WithinChildren(entry: Entry, limit: nat)
    requires IsContainer(entry.item) && entry.depth < limit
    ensures Within(entry, limit) <==> AllWithin(Entries(Children(entry.item), entry.depth + 1), limit)
  {
    var children := Children(entry.item);
    MaxHeightBounds(entry.item, children, limit - entry.depth - 1);
    var entries := Entries(children, entry.depth + 1);
    forall i | 0 <= i < |children|
      ensures Within(entries[i], limit) <==> Height(children[i]) <= limit - entry.depth - 1
    {
    }
  }

  lemma AllWithinJoins(a: seq<Entry>, b: seq<Entry>, limit: nat)
    ensures AllWithin(a + b, limit) <==> AllWithin(a, limit) && AllWithin(b, limit)
  {
    assert (a + b)[..|a|] == a && (a + b)[|a|..] == b;
    if AllWithin(a + b, limit) {
      forall i | 0 <= i < |b| ensures Within(b[i], limit) { assert b[i] == (a + b)[|a| + i]; }
    }
  }

  lemma PopEntry(stack: seq<Entry>, limit: nat)
    requires stack != []
    ensures var top := stack[|stack| - 1];
            && StackSize(stack) == StackSize(stack[..|stack| - 1]) + Size(top.item)
            && (AllWithin(stack, limit) <==> AllWithin(stack[..|stack| - 1], limit) && Within(top, limit))
  {
    hide Within, Size;
    assert stack == stack[..|stack| - 1] + [stack[|stack| - 1]];
    AllWithinJoins(stack[..|stack| - 1], [stack[|stack| - 1]], limit);
  }

  lemma PushChildren(stack: seq<Entry>, top: Entry, limit: nat)
    requires IsContainer(top.item) && top.depth < limit
    ensures var pushed := stack + Entries(Children(top.item), top.depth + 1);
            && StackSize(pushed) < StackSize(stack) + Size(top.item)
            && (AllWithin(pushed, limit) <==> AllWithin(stack, limit) && Within(top, limit))
  {
    WithinChildren(top, limit);
    StackSizeExtends(stack, top.item, Children(top.item), top.depth + 1);
    AllWithinJoins(stack, Entries(Children(top.item), top.depth + 1), limit);
  }

  /** The stack walk of `strict_json_loads` refuses exactly the values higher than the limit. */
  method DepthWalk(decoded: Json, limit: nat) returns (exceeds: bool)
    requires limit >= 1
    ensures exceeds <==> Height(decoded) > limit
  {
    var stack := [Entry(decoded, 0)];
    assert AllWithin(stack, limit) <==> Within(stack[0], limit);
    while stack != []
      invariant AllWithin(stack, limit) <==> Height(decoded) <= limit
      decreases StackSize(stack)
    {
      PopEntry(stack, limit);
      var top := stack[|stack| - 1];
      stack := stack[..|stack| - 1];
      if IsContainer(top.item) {
        if top.depth >= limit {
          assert !Within(top, limit);
          return true;
        }
        PushChildren(stack, top, limit);
        stack := stack + Entries(Children(top.item), top.depth + 1);
      }
    }
    return false;
  }

  /** `strict_json_loads` as it runs: decode, read, then walk. */
  method StrictJsonLoads(data: Bytes, limit: int) returns (r: Result<Json, ReadError>)
    ensures r == Loads(data, limit)
  {
    if limit < 1 { return Err(BadReadLimit); }
    var text := Decode(data);
    if text.None? { return Err(NotUtf8); }
    var decoded := ReadText(text.value);
    if decoded.Err? { return decoded; }
    var exceeds := DepthWalk(decoded.value, limit);
    return if exceeds then Err(TooDeep) else decoded;
  }
}
