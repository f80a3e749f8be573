/** JSON values as Python holds them, and the canonical printer of the lossless boundary. */
module Json {
  import opened Prelude
  import opened Utf8
  import opened JsonNumber

  /** A dict keeps its insertion order, so an object is a sequence of members with distinct keys.
      Number is an ExactJSONNumber, Int a plain Python int, and Foreign any value the printer
      refuses by type: float, Decimal, bytes and every unknown class. */
  datatype Json =
    | Null
    | Bool(b: bool)
    | Number(lexeme: Text)
    | Int(i: int)
    | Str(s: Text)
    | Arr(items: seq<Json>)
    | Obj(members: seq<Member>)
    | Foreign

  /** Something filed under an object key: a member of an object, or what became of one. */
  datatype Keyed<+T> = Keyed(key: Text, value: T)

  type Member = Keyed<Json>

  datatype PrintError = DepthExceeded | NotUnicode | UnsupportedType | BadLimit

  const NULL_TOKEN: Text := [0x6E, 0x75, 0x6C, 0x6C]
  const TRUE_TOKEN: Text := [0x74, 0x72, 0x75, 0x65]
  const FALSE_TOKEN: Text := [0x66, 0x61, 0x6C, 0x73, 0x65]

  predicate IsContainer(v: Json) {
    v.Arr? || v.Obj?
  }

  function Children(v: Json): (children: seq<Json>)
    ensures forall i :: 0 <= i < |children| ==> children[i] < v
  {
    match v
    case Arr(items) => items
    case Obj(members) => seq(|members|, i requires 0 <= i < |members| => members[i].value)
    case _ => []
  }

  function Max(a: nat, b: nat): nat {
    if a < b then b else a
  }

  /** Number of containers on the longest path from v to a leaf. */
  function Height(v: Json): nat
    decreases v, 1
  {
    if IsContainer(v) then 1 + MaxHeight(v, Children(v)) else 0
  }

  function MaxHeight(parent: Json, children: seq<Json>): nat
    requires forall i :: 0 <= i < |children| ==> children[i] < parent
    decreases parent, 0, |children|
  {
    if children == [] then 0 else Max(Height(children[0]), MaxHeight(parent, children[1..]))
  }

  predicate DistinctKeys<T>(members: seq<Keyed<T>>) {
    forall i, j :: 0 <= i < j < |members| ==> members[i].key != members[j].key
  }

  /** `members.get(key)`. */
  function Get(members: seq<Member>, key: Text): Option<Json> {
    if members == [] then None
    else if members[0].key == key then Some(members[0].value)
    else Get(members[1..], key)
  }

  /** The invariants Python itself keeps: a dict holds a key once, an ExactJSONNumber is a number. */
  predicate Valid(v: Json)
    decreases v
  {
    match v
    case Number(lexeme) => IsNumber(lexeme)
    case Arr(items) => forall i :: 0 <= i < |items| ==> Valid(items[i])
    case Obj(members) => DistinctKeys(members) && forall i :: 0 <= i < |members| ==> Valid(members[i].value)
    case _ => true
  }

  // Strings

  function HexDigit(n: nat): CodePoint
    requires n < 16
  {
    if n < 10 then 0x30 + n else 0x61 + (n - 10)
  }

  function EscapeOne(c: CodePoint): Text {
    if c == 0x22 then [0x5C, 0x22]
    else if c == 0x5C then [0x5C, 0x5C]
    else if c == 0x08 then [0x5C, 0x62]
    else if c == 0x0C then [0x5C, 0x66]
    else if c == 0x0A then [0x5C, 0x6E]
    else if c == 0x0D then [0x5C, 0x72]
    else if c == 0x09 then [0x5C, 0x74]
    else if c < 0x20 then [0x5C, 0x75, 0x30, 0x30, HexDigit(c / 16), HexDigit(c % 16)]
    else [c]
  }

  function Escape(s: Text): Text {
    if s == [] then [] else EscapeOne(s[0]) + Escape(s[1..])
  }

  /** `json.dumps(s, ensure_ascii=False)`. */
  function Quote(s: Text): Text {
    [0x22] + Escape(s) + [0x22]
  }

  // Member order

  predicate BytesLeq(a: Bytes, b: Bytes) {
    a == [] || (b != [] && (a[0] < b[0] || (a[0] == b[0] && BytesLeq(a[1..], b[1..]))))
  }

  predicate KeyLeq(a: Text, b: Text) {
    BytesLeq(Concat(a), Concat(b))
  }

  function Insert<T>(m: Keyed<T>, sorted: seq<Keyed<T>>): seq<Keyed<T>> {
    if sorted == [] || KeyLeq(m.key, sorted[0].key) then [m] + sorted
    else [sorted[0]] + Insert(m, sorted[1..])
  }

  function Sort<T>(entries: seq<Keyed<T>>): seq<Keyed<T>> {
    if entries == [] then [] else Insert(entries[0], Sort(entries[1..]))
  }

  function Order<T>(entries: seq<Keyed<T>>, sortKeys: bool): seq<Keyed<T>> {
    if sortKeys then Sort(entries) else entries
  }

  predicate ScalarKeys(members: seq<Member>) {
    forall i :: 0 <= i < |members| ==> ScalarText(members[i].key)
  }

  // The printer

  /** The inner `encode` of `strict_json_dumps`, with the checks in its order. */
  function Print(v: Json, depth: nat, limit: nat, sortKeys: bool): Result<Text, PrintError>
    decreases v, 1
  {
    match v
    case Null => Ok(NULL_TOKEN)
    case Bool(b) => Ok(if b then TRUE_TOKEN else FALSE_TOKEN)
    case Number(lexeme) => Ok(lexeme)
    case Int(i) => Ok(IntText(i))
    case Str(s) => Ok(Quote(s))
    case Foreign => Err(UnsupportedType)
    case Arr(items) =>
      if depth >= limit then Err(DepthExceeded)
      else Bracket(0x5B, PrintItems(items, depth + 1, limit, sortKeys), 0x5D)
    case Obj(members) =>
      if depth >= limit then Err(DepthExceeded)
      else if sortKeys && !ScalarKeys(members) then Err(NotUnicode)
      else Bracket(0x7B, JoinMembers(Order(PrintEach(members, depth + 1, limit, sortKeys), sortKeys)), 0x7D)
  }

  function Bracket(open: CodePoint, inner: Result<Text, PrintError>, close: CodePoint): Result<Text, PrintError> {
    match inner
    case Err(e) => Err(e)
    case Ok(t) => Ok([open] + t + [close])
  }

  /** One part of a `",".join`: the first refusal in order wins. */
  function Comma(head: Result<Text, PrintError>, tail: Result<Text, PrintError>): Result<Text, PrintError> {
    if head.Err? then head
    else if tail.Err? then tail
    else Ok(head.value + [0x2C] + tail.value)
  }

  function PrintItems(items: seq<Json>, depth: nat, limit: nat, sortKeys: bool): Result<Text, PrintError>
    decreases items, 0
  {
    if items == [] then Ok([])
    else if |items| == 1 then Print(items[0], depth, limit, sortKeys)
    else Comma(Print(items[0], depth, limit, sortKeys), PrintItems(items[1..], depth, limit, sortKeys))
  }

  /** What printing each member's value gives; JoinMembers decides in printing order which count. */
  function PrintEach(members: seq<Member>, depth: nat, limit: nat, sortKeys: bool): (r: seq<Keyed<Result<Text, PrintError>>>)
    ensures |r| == |members|
    decreases members, 0
  {
    if members == [] then []
    else
      var head := Keyed(members[0].key, Print(members[0].value, depth, limit, sortKeys));
      [head] + PrintEach(members[1..], depth, limit, sortKeys)
  }

  function JoinMember(entry: Keyed<Result<Text, PrintError>>): Result<Text, PrintError> {
    match entry.value
    case Err(e) => Err(e)
    case Ok(child) => Ok(Quote(entry.key) + [0x3A] + child)
  }

  function JoinMembers(entries: seq<Keyed<Result<Text, PrintError>>>): Result<Text, PrintError> {
    if entries == [] then Ok([])
    else if |entries| == 1 then JoinMember(entries[0])
    else Comma(JoinMember(entries[0]), JoinMembers(entries[1..]))
  }

  /** `strict_json_dumps`. */
  function Dumps(v: Json, limit: int, sortKeys: bool): Result<Bytes, PrintError> {
    if limit < 1 then Err(BadLimit)
    else
      match Print(v, 0, limit, sortKeys)
      case Err(e) => Err(e)
      case Ok(t) =>
        match Encode(t)
        case None => Err(NotUnicode)
        case Some(bytes) => Ok(bytes)
  }
}
