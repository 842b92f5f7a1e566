/**
 Turning a decoded request into a typed command. A request is an array
 whose first frame names the command and whose remaining frames are its
 arguments. Keys, fields and messages are bulk strings whose bytes must
 be UTF-8, as they become Rust strings.

 Two shapes of parsing coexist. The dispatcher recognises the five
 commands it knows (get, set, hget, hset, hgetall) by their exact
 lower-case bytes. Each command's own parser checks its name after ASCII
 lower-casing, so it also accepts upper-case names. hmget, sadd,
 sismember and echo have parsers but are not reachable from the
 dispatcher.
 */
module Commands {
  import opened Results
  import opened Bytes
  import opened Utf8
  import opened Frames

  type Text = seq<Byte>

  datatype CommandError = InvalidCommand | InvalidArguments | Utf8Error

  type Parsed<T> = Result<T, CommandError>

  datatype Command =
    | Get(key: Text)
    | Set(key: Text, value: Frame)
    | HGet(key: Text, field: Text)
    | HSet(key: Text, field: Text, value: Frame)
    | HGetAll(key: Text, sort: bool)
    | HMGet(key: Text, fields: seq<Text>)
    | SAdd(key: Text, members: seq<Frame>)
    | SIsMember(key: Text, member: Frame)
    | Echo(message: Text)

  const GET: Text := Ascii("get")
  const SET: Text := Ascii("set")
  const HGET: Text := Ascii("hget")
  const HSET: Text := Ascii("hset")
  const HGETALL: Text := Ascii("hgetall")
  const HMGET: Text := Ascii("hmget")
  const SADD: Text := Ascii("sadd")
  const SISMEMBER: Text := Ascii("sismember")
  const ECHO: Text := Ascii("echo")

  function Lower(b: Byte): Byte {
    if 65 <= b <= 90 then b + 32 else b
  }

  /** ASCII lower-casing; every other byte is kept. */
  function LowerAscii(s: Text): Text {
    seq(|s|, i requires 0 <= i < |s| => Lower(s[i]))
  }

  /** Position `i` holds a bulk string that spells `name` in any ASCII case. */
  predicate NameAt(frames: seq<Frame>, i: nat, name: Text) {
    i < |frames| && frames[i].BulkString? && LowerAscii(frames[i].data) == name
  }

  /** The name positions from `i` on; the first mismatch is an invalid command. */
  function CheckNames(frames: seq<Frame>, names: seq<Text>, i: nat): (r: Parsed<()>)
    requires i <= |names|
    ensures r.Ok? <==> forall j :: i <= j < |names| ==> NameAt(frames, j, names[j])
    ensures r.Err? ==> r.error == InvalidCommand
    decreases |names| - i
  {
    if i == |names| then Ok(())
    else if !NameAt(frames, i, names[i]) then Err(InvalidCommand)
    else CheckNames(frames, names, i + 1)
  }

  /**
   `validate_command`: the array holds the names followed by exactly
   `nArgs` arguments, and each name position spells its name.
   */
  function ValidateCommand(frames: seq<Frame>, names: seq<Text>, nArgs: nat): (r: Parsed<()>)
    ensures r.Ok? <==>
      |frames| == |names| + nArgs && forall j :: 0 <= j < |names| ==> NameAt(frames, j, names[j])
    ensures r.Err? ==> (r.error == InvalidArguments <==> |frames| != |names| + nArgs)
    ensures r.Err? ==> r.error == InvalidArguments || r.error == InvalidCommand
  {
    if |frames| != |names| + nArgs then Err(InvalidArguments)
    else CheckNames(frames, names, 0)
  }

  /** `extract_args`: the frames from position `start` on, in their original order. */
  function ExtractArgs(frames: seq<Frame>, start: nat): (r: seq<Frame>)
    ensures |r| == if start <= |frames| then |frames| - start else 0
    ensures forall i :: 0 <= i < |r| ==> r[i] == frames[start + i]
  {
    if start <= |frames| then frames[start..] else []
  }

  /** A key, field or message argument: a bulk string whose bytes are UTF-8. */
  function TextArg(f: Frame): (r: Parsed<Text>)
    ensures r.Ok? <==> f.BulkString? && ValidUtf8(f.data)
    ensures r.Ok? ==> r.value == f.data
    ensures r.Err? ==> r.error == (if f.BulkString? then Utf8Error else InvalidArguments)
  {
    match f
    case BulkString(d) => if ValidUtf8(d) then Ok(d) else Err(Utf8Error)
    case _ => Err(InvalidArguments)
  }

  /** The text arguments of HMGET: all must be UTF-8 bulk strings; the first that is not decides the error. */
  function TextArgs(args: seq<Frame>): (r: Parsed<seq<Text>>)
    ensures r.Ok? <==> forall i :: 0 <= i < |args| ==> TextArg(args[i]).Ok?
    ensures r.Ok? ==> |r.value| == |args| && forall i :: 0 <= i < |args| ==> r.value[i] == args[i].data
    ensures r.Err? ==> exists i :: 0 <= i < |args| && TextArg(args[i]) == Err(r.error)
                                && forall j :: 0 <= j < i ==> TextArg(args[j]).Ok?
  {
    if args == [] then Ok([])
    else
      var t :- TextArg(args[0]);
      var ts :- TextArgs(args[1..]);
      Ok([t] + ts)
  }

  /** The members of SADD: all must be bulk strings, kept as they are. */
  function BulkArgs(args: seq<Frame>): (r: Parsed<seq<Frame>>)
    ensures r.Ok? <==> forall i :: 0 <= i < |args| ==> args[i].BulkString?
    ensures r.Ok? ==> r.value == args
    ensures r.Err? ==> r.error == InvalidArguments
  {
    if args == [] then Ok([])
    else if !args[0].BulkString? then Err(InvalidArguments)
    else
      var rest :- BulkArgs(args[1..]);
      Ok([args[0]] + rest)
  }

  /** The lower-case name a command is requested by. */
  function Name(c: Command): Text {
    match c
    case Get(_) => GET
    case Set(_, _) => SET
    case HGet(_, _) => HGET
    case HSet(_, _, _) => HSET
    case HGetAll(_, _) => HGETALL
    case HMGet(_, _) => HMGET
    case SAdd(_, _) => SADD
    case SIsMember(_, _) => SISMEMBER
    case Echo(_) => ECHO
  }

  function Bulks(ts: seq<Text>): (r: seq<Frame>)
    ensures |r| == |ts| && forall i :: 0 <= i < |ts| ==> r[i] == BulkString(ts[i])
  {
    if ts == [] then [] else [BulkString(ts[0])] + Bulks(ts[1..])
  }

  /** The arguments a command is requested with. */
  function Args(c: Command): seq<Frame> {
    match c
    case Get(k) => [BulkString(k)]
    case Set(k, v) => [BulkString(k), v]
    case HGet(k, f) => [BulkString(k), BulkString(f)]
    case HSet(k, f, v) => [BulkString(k), BulkString(f), v]
    case HGetAll(k, _) => [BulkString(k)]
    case HMGet(k, fs) => [BulkString(k)] + Bulks(fs)
    case SAdd(k, ms) => [BulkString(k)] + ms
    case SIsMember(k, m) => [BulkString(k), m]
    case Echo(msg) => [BulkString(msg)]
  }

  /** The request array a client sends for `c`. */
  function Request(c: Command): seq<Frame> {
    [BulkString(Name(c))] + Args(c)
  }

  /**
   The commands some request parses to: texts are UTF-8, set members are
   bulk strings, and HGETALL is unsorted (sorting is never requested on
   the wire).
   */
  predicate Parsable(c: Command) {
    match c
    case Get(k) => ValidUtf8(k)
    case Set(k, _) => ValidUtf8(k)
    case HGet(k, f) => ValidUtf8(k) && ValidUtf8(f)
    case HSet(k, f, _) => ValidUtf8(k) && ValidUtf8(f)
    case HGetAll(k, sort) => ValidUtf8(k) && !sort
    case HMGet(k, fs) => ValidUtf8(k) && forall i :: 0 <= i < |fs| ==> ValidUtf8(fs[i])
    case SAdd(k, ms) => ValidUtf8(k) && forall i :: 0 <= i < |ms| ==> ms[i].BulkString?
    case SIsMember(k, m) => ValidUtf8(k) && m.BulkString?
    case Echo(msg) => ValidUtf8(msg)
  }

  /** `arr` is the request for `c`, except that the name may be in any ASCII case. */
  predicate Requests(arr: seq<Frame>, c: Command) {
    |arr| > 0 && NameAt(arr, 0, Name(c)) && arr[1..] == Args(c)
  }

  function ParseGet(arr: seq<Frame>): (r: Parsed<Command>)
    ensures r.Ok? ==> r.value.Get? && Parsable(r.value) && Requests(arr, r.value)
    ensures |arr| != 2 ==> r == Err(InvalidArguments)
    ensures |arr| == 2 && !NameAt(arr, 0, GET) ==> r == Err(InvalidCommand)
  {
    var _ :- ValidateCommand(arr, [GET], 1);
    if |arr| != 2 then Err(InvalidCommand)
    else
      var key :- TextArg(ExtractArgs(arr, 1)[0]);
      Ok(Get(key))
  }

  function ParseSet(arr: seq<Frame>): (r: Parsed<Command>)
    ensures r.Ok? ==> r.value.Set? && Parsable(r.value) && Requests(arr, r.value)
    ensures |arr| != 3 ==> r == Err(InvalidArguments)
    ensures |arr| == 3 && !NameAt(arr, 0, SET) ==> r == Err(InvalidCommand)
  {
    var _ :- ValidateCommand(arr, [SET], 2);
    var args := ExtractArgs(arr, 1);
    var key :- TextArg(args[0]);
    Ok(Command.Set(key, args[1]))
  }

  function ParseHGet(arr: seq<Frame>): (r: Parsed<Command>)
    ensures r.Ok? ==> r.value.HGet? && Parsable(r.value) && Requests(arr, r.value)
    ensures |arr| != 3 ==> r == Err(InvalidArguments)
    ensures |arr| == 3 && !NameAt(arr, 0, HGET) ==> r == Err(InvalidCommand)
  {
    var _ :- ValidateCommand(arr, [HGET], 2);
    var args := ExtractArgs(arr, 1);
    var key :- TextArg(args[0]);
    var field :- TextArg(args[1]);
    Ok(HGet(key, field))
  }

  function ParseHSet(arr: seq<Frame>): (r: Parsed<Command>)
    ensures r.Ok? ==> r.value.HSet? && Parsable(r.value) && Requests(arr, r.value)
    ensures |arr| != 4 ==> r == Err(InvalidArguments)
    ensures |arr| == 4 && !NameAt(arr, 0, HSET) ==> r == Err(InvalidCommand)
  {
    var _ :- ValidateCommand(arr, [HSET], 3);
    var args := ExtractArgs(arr, 1);
    var key :- TextArg(args[0]);
    var field :- TextArg(args[1]);
    Ok(HSet(key, field, args[2]))
  }

  function ParseHGetAll(arr: seq<Frame>): (r: Parsed<Command>)
    ensures r.Ok? ==> r.value.HGetAll? && Parsable(r.value) && Requests(arr, r.value)
    ensures |arr| != 2 ==> r == Err(InvalidArguments)
    ensures |arr| == 2 && !NameAt(arr, 0, HGETALL) ==> r == Err(InvalidCommand)
  {
    var _ :- ValidateCommand(arr, [HGETALL], 1);
    var key :- TextArg(ExtractArgs(arr, 1)[0]);
    Ok(HGetAll(key, false))
  }

  /**
   HMGET takes as many arguments as the array holds, so its arity check
   cannot fail; an empty array is excluded because the count underflows.
   */
  function ParseHMGet(arr: seq<Frame>): (r: Parsed<Command>)
    requires |arr| > 0
    ensures r.Ok? ==> r.value.HMGet? && Parsable(r.value) && Requests(arr, r.value)
    ensures !NameAt(arr, 0, HMGET) ==> r == Err(InvalidCommand)
    ensures |arr| == 1 && NameAt(arr, 0, HMGET) ==> r == Err(InvalidArguments)
  {
    var _ :- ValidateCommand(arr, [HMGET], |arr| - 1);
    var args := ExtractArgs(arr, 1);
    if |args| == 0 then Err(InvalidArguments)
    else
      var key :- TextArg(args[0]);
      var fields :- TextArgs(args[1..]);
      Ok(HMGet(key, fields))
  }

  function ParseSAdd(arr: seq<Frame>): (r: Parsed<Command>)
    requires |arr| > 0
    ensures r.Ok? ==> r.value.SAdd? && Parsable(r.value) && Requests(arr, r.value)
    ensures !NameAt(arr, 0, SADD) ==> r == Err(InvalidCommand)
    ensures |arr| == 1 && NameAt(arr, 0, SADD) ==> r == Err(InvalidArguments)
  {
    var _ :- ValidateCommand(arr, [SADD], |arr| - 1);
    var args := ExtractArgs(arr, 1);
    if |args| == 0 then Err(InvalidArguments)
    else
      var key :- TextArg(args[0]);
      var members :- BulkArgs(args[1..]);
      Ok(SAdd(key, members))
  }

  function ParseSIsMember(arr: seq<Frame>): (r: Parsed<Command>)
    ensures r.Ok? ==> r.value.SIsMember? && Parsable(r.value) && Requests(arr, r.value)
    ensures |arr| != 3 ==> r == Err(InvalidArguments)
    ensures |arr| == 3 && !NameAt(arr, 0, SISMEMBER) ==> r == Err(InvalidCommand)
  {
    var _ :- ValidateCommand(arr, [SISMEMBER], 2);
    var args := ExtractArgs(arr, 1);
    var key :- TextArg(args[0]);
    if !args[1].BulkString? then Err(InvalidArguments)
    else Ok(SIsMember(key, args[1]))
  }

  function ParseEcho(arr: seq<Frame>): (r: Parsed<Command>)
    ensures r.Ok? ==> r.value.Echo? && Parsable(r.value) && Requests(arr, r.value)
    ensures |arr| != 2 ==> r == Err(InvalidArguments)
    ensures |arr| == 2 && !NameAt(arr, 0, ECHO) ==> r == Err(InvalidCommand)
  {
    var _ :- ValidateCommand(arr, [ECHO], 1);
    var message :- TextArg(ExtractArgs(arr, 1)[0]);
    Ok(Echo(message))
  }

  /** The commands the dispatcher reaches. */
  predicate Dispatched(c: Command) {
    c.Get? || c.Set? || c.HGet? || c.HSet? || c.HGetAll?
  }

  /**
   `Command::try_from` on an array: the first frame must be a bulk string
   holding one of five names exactly; the named parser does the rest.
   */
  function ParseArray(arr: seq<Frame>): (r: Parsed<Command>)
    ensures r.Ok? ==> Dispatched(r.value) && Parsable(r.value) && arr == Request(r.value)
    ensures |arr| == 0 || !arr[0].BulkString? ==> r == Err(InvalidCommand)
    ensures |arr| > 0 && arr[0].BulkString? && arr[0].data !in {GET, SET, HGET, HSET, HGETALL} ==>
      r == Err(InvalidCommand)
  {
    if |arr| == 0 || !arr[0].BulkString? then Err(InvalidCommand)
    else
      var name := arr[0].data;
      if name == GET then ParseGet(arr)
      else if name == SET then ParseSet(arr)
      else if name == HGET then ParseHGet(arr)
      else if name == HSET then ParseHSet(arr)
      else if name == HGETALL then ParseHGetAll(arr)
      else Err(InvalidCommand)
  }

  /** `Command::try_from` on a frame: only an array can be a command. */
  function ParseFrame(f: Frame): (r: Parsed<Command>)
    ensures r.Ok? ==> f == Array(Request(r.value)) && Dispatched(r.value) && Parsable(r.value)
    ensures !f.Array? ==> r == Err(InvalidCommand)
  {
    match f
    case Array(arr) => ParseArray(arr)
    case _ => Err(InvalidCommand)
  }

  /** The names are written in lower case, so a request names its command exactly. */
  lemma NamesAreLower(c: Command)
    ensures LowerAscii(Name(c)) == Name(c)
  {
    var n := Name(c);
    forall i | 0 <= i < |n|
      ensures Lower(n[i]) == n[i]
    {
    }
  }

  /** A command's own request, in any ASCII case of its name, parses back to it. */
  lemma ParseOfRequests(arr: seq<Frame>, c: Command)
    requires Requests(arr, c) && Parsable(c)
    ensures c.Get? ==> ParseGet(arr) == Ok(c)
    ensures c.Set? ==> ParseSet(arr) == Ok(c)
    ensures c.HGet? ==> ParseHGet(arr) == Ok(c)
    ensures c.HSet? ==> ParseHSet(arr) == Ok(c)
    ensures c.HGetAll? ==> ParseHGetAll(arr) == Ok(c)
    ensures c.HMGet? ==> ParseHMGet(arr) == Ok(c)
    ensures c.SAdd? ==> ParseSAdd(arr) == Ok(c)
    ensures c.SIsMember? ==> ParseSIsMember(arr) == Ok(c)
    ensures c.Echo? ==> ParseEcho(arr) == Ok(c)
  {
    hide ParseGet, ParseSet, ParseHGet, ParseHSet, ParseHGetAll, ParseHMGet, ParseSAdd, ParseSIsMember, ParseEcho, Requests, Parsable;
    match c
    case Get(_) => ParseGetOfRequest(arr, c);
    case Set(_, _) => ParseSetOfRequest(arr, c);
    case HGet(_, _) => ParseHGetOfRequest(arr, c);
    case HSet(_, _, _) => ParseHSetOfRequest(arr, c);
    case HGetAll(_, _) => ParseHGetAllOfRequest(arr, c);
    case HMGet(_, _) => ParseHMGetOfRequest(arr, c);
    case SAdd(_, _) => ParseSAddOfRequest(arr, c);
    case SIsMember(_, _) => ParseSIsMemberOfRequest(arr, c);
    case Echo(_) => ParseEchoOfRequest(arr, c);
  }

  /** Each parser on a request for its own command. */
  lemma ParseGetOfRequest(arr: seq<Frame>, c: Command)
    requires Requests(arr, c) && Parsable(c) && c.Get?
    ensures ParseGet(arr) == Ok(c)
  {
    assert arr == [arr[0]] + Args(c);
  }

  lemma ParseSetOfRequest(arr: seq<Frame>, c: Command)
    requires Requests(arr, c) && Parsable(c) && c.Set?
    ensures ParseSet(arr) == Ok(c)
  {
    assert arr == [arr[0]] + Args(c);
  }

  lemma ParseHGetOfRequest(arr: seq<Frame>, c: Command)
    requires Requests(arr, c) && Parsable(c) && c.HGet?
    ensures ParseHGet(arr) == Ok(c)
  {
    assert arr == [arr[0]] + Args(c);
  }

  lemma ParseHSetOfRequest(arr: seq<Frame>, c: Command)
    requires Requests(arr, c) && Parsable(c) && c.HSet?
    ensures ParseHSet(arr) == Ok(c)
  {
    assert arr == [arr[0]] + Args(c);
  }

  lemma ParseHGetAllOfRequest(arr: seq<Frame>, c: Command)
    requires Requests(arr, c) && Parsable(c) && c.HGetAll?
    ensures ParseHGetAll(arr) == Ok(c)
  {
    assert arr == [arr[0]] + Args(c);
  }

  lemma ParseHMGetOfRequest(arr: seq<Frame>, c: Command)
    requires Requests(arr, c) && Parsable(c) && c.HMGet?
    ensures ParseHMGet(arr) == Ok(c)
  {
    assert arr == [arr[0]] + Args(c);
    assert arr[2..] == Bulks(c.fields);
    var r := TextArgs(arr[2..]);
    assert r.Ok?;
    assert r.value == c.fields;
  }

  lemma ParseSAddOfRequest(arr: seq<Frame>, c: Command)
    requires Requests(arr, c) && Parsable(c) && c.SAdd?
    ensures ParseSAdd(arr) == Ok(c)
  {
    assert arr == [arr[0]] + Args(c);
    assert arr[2..] == c.members;
  }

  lemma ParseSIsMemberOfRequest(arr: seq<Frame>, c: Command)
    requires Requests(arr, c) && Parsable(c) && c.SIsMember?
    ensures ParseSIsMember(arr) == Ok(c)
  {
    assert arr == [arr[0]] + Args(c);
  }

  lemma ParseEchoOfRequest(arr: seq<Frame>, c: Command)
    requires Requests(arr, c) && Parsable(c) && c.Echo?
    ensures ParseEcho(arr) == Ok(c)
  {
    assert arr == [arr[0]] + Args(c);
  }

  lemma DispatchedNamesDiffer()
    ensures GET == [103, 101, 116] && SET == [115, 101, 116]
    ensures HGET[..2] == [104, 103] && HSET[..2] == [104, 115] && |HGET| == |HSET| == 4 && |HGETALL| == 7
  {
  }

  /** Every command the dispatcher knows parses back from its request. */
  lemma ParseOfRequest(c: Command)
    requires Dispatched(c) && Parsable(c)
    ensures ParseArray(Request(c)) == Ok(c)
    ensures ParseFrame(Array(Request(c))) == Ok(c)
  {
    NamesAreLower(c);
    DispatchedNamesDiffer();
    ParseOfRequests(Request(c), c);
  }
}
