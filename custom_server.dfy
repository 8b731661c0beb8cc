/**
 * A replica node's HTTP front: requests carrying the coordinator's
 * timestamp header are executed against the local timestamped store;
 * client requests have their replication factor `ack/from` parsed and
 * validated before being handed to the replication layer.
 */
module CustomServer {
  import opened JavaLang
  import opened Http

  // ---------------------------------------------------------------------------
  // `String.split` with a one-character separator

  /** Every field between separators, empty ones included: `|fields|` is one more than the separators in `s`. */
  function SplitFields(s: string, sep: char): (fields: seq<string>)
    ensures |fields| >= 1
    ensures forall i :: 0 <= i < |fields| ==> sep !in fields[i]
  {
    if s == [] then [""]
    else
      var rest := SplitFields(s[1..], sep);
      if s[0] == sep then [""] + rest else [[s[0]] + rest[0]] + rest[1..]
  }

  /** Drops the empty strings at the end, as `split` with limit 0 does. */
  function StripTrailingEmpty(fields: seq<string>): (r: seq<string>)
    ensures |r| <= |fields| && r == fields[..|r|]
    ensures r != [] ==> r[|r| - 1] != ""
    ensures forall i :: |r| <= i < |fields| ==> fields[i] == ""
  {
    if fields == [] || fields[|fields| - 1] != "" then fields
    else StripTrailingEmpty(fields[..|fields| - 1])
  }

  /**
   * `s.split(sep)`: the whole string when the separator does not occur,
   * else the fields without trailing empty ones. No field holds the
   * separator, and a split with a separator ends in a non-empty field.
   */
  function JavaSplit(s: string, sep: char): (fields: seq<string>)
    ensures sep !in s ==> fields == [s]
    ensures forall i :: 0 <= i < |fields| ==> sep !in fields[i]
    ensures sep in s && fields != [] ==> fields[|fields| - 1] != ""
  {
    if sep !in s then [s] else StripTrailingEmpty(SplitFields(s, sep))
  }

  lemma {:induction false} SplitFieldsNoSeparator(s: string, sep: char)
    requires sep !in s
    ensures SplitFields(s, sep) == [s]
  {
    if s != [] {
      SplitFieldsNoSeparator(s[1..], sep);
      assert [s[0]] + s[1..] == s;
    }
  }

  lemma {:induction false} SplitFieldsJoin(a: string, b: string, sep: char)
    requires sep !in a
    ensures SplitFields(a + [sep] + b, sep) == [a] + SplitFields(b, sep)
  {
    if a == [] {
      assert a + [sep] + b == [sep] + b;
      assert ([sep] + b)[1..] == b;
    } else {
      SplitFieldsJoin(a[1..], b, sep);
      assert (a + [sep] + b)[1..] == a[1..] + [sep] + b;
      assert [a[0]] + a[1..] == a;
    }
  }

  /** Splitting `a/b` gives back `a` and `b` when neither holds the separator and `b` is not empty. */
  lemma SplitTwoFields(a: string, b: string, sep: char)
    requires sep !in a && sep !in b && b != ""
    ensures JavaSplit(a + [sep] + b, sep) == [a, b]
  {
    SplitFieldsJoin(a, b, sep);
    SplitFieldsNoSeparator(b, sep);
    assert (a + [sep] + b)[|a|] == sep;
  }

  /** The decimal form of an `int` holds no '/'. */
  lemma NoSlashInNumber(n: int)
    ensures '/' !in IntToString(n)
  {
    var s := IntToString(n);
    if n < 0 {
      assert forall i :: 1 <= i < |s| ==> s[i] == NatToString(-n)[i - 1];
    }
  }

  // ---------------------------------------------------------------------------
  // ReplicationParams.fromHeader

  datatype ParamsResult =
    | Params(ack: int, from: int)
    | NumberFormat        // NumberFormatException: answered 400
    | IndexOutOfBounds    // `replicas=` with fewer than two fields: ArrayIndexOutOfBoundsException, not caught

  /** The default `ack` for `from` replicas: a majority, `from / 2 + 1`, unless that exceeds the cluster. */
  function DefaultAck(from: int, clusterSize: int): (ack: int)
    ensures from >= 1 ==> 1 <= ack <= from
  {
    var majority := Div(from, 2) + 1;
    if majority <= clusterSize then majority else from
  }

  /**
   * `fromHeader`: `replicas=ack/from` wins over `ack=` and `from=`; `from`
   * (field 1) is parsed before `ack` (field 0); missing parameters take
   * their defaults.
   */
  function FromHeader(request: Request, clusterSize: int): (r: ParamsResult)
    ensures r.IndexOutOfBounds? <==>
              GetParameter(request, "replicas").Some? && |JavaSplit(GetParameter(request, "replicas").value, '/')| < 2
    ensures r.NumberFormat? ==>
              GetParameter(request, "replicas").Some? || GetParameter(request, "ack").Some? || GetParameter(request, "from").Some?
    ensures r.Params? && GetParameter(request, "replicas").None? ==>
              && (GetParameter(request, "from").None? ==> r.from == clusterSize)
              && (GetParameter(request, "from").Some? ==> IsInt(GetParameter(request, "from").value) && r.from == DecimalValue(GetParameter(request, "from").value))
              && (GetParameter(request, "ack").None? ==> r.ack == DefaultAck(r.from, clusterSize))
              && (GetParameter(request, "ack").Some? ==> IsInt(GetParameter(request, "ack").value) && r.ack == DecimalValue(GetParameter(request, "ack").value))
    ensures r.Params? && GetParameter(request, "replicas").Some? ==> INT_MIN <= r.ack <= INT_MAX && INT_MIN <= r.from <= INT_MAX
  {
    var replicasParam := GetParameter(request, "replicas");
    if replicasParam.Some? then FromReplicasFields(JavaSplit(replicasParam.value, '/'))
    else
      var fromParam := GetParameter(request, "from");
      var from := if fromParam.Some? then ParseInt(fromParam.value) else Some(clusterSize);
      if from.None? then NumberFormat
      else
        var ackParam := GetParameter(request, "ack");
        var ack := if ackParam.Some? then ParseInt(ackParam.value) else Some(DefaultAck(from.value, clusterSize));
        if ack.None? then NumberFormat else Params(ack.value, from.value)
  }

  /** The fields of `replicas=`: field 1 is `from`, field 0 is `ack`; fields after the second are ignored. */
  function FromReplicasFields(fields: seq<string>): (r: ParamsResult)
    ensures r.IndexOutOfBounds? <==> |fields| < 2
    ensures r.NumberFormat? <==> |fields| >= 2 && !(IsInt(fields[0]) && IsInt(fields[1]))
    ensures r.Params? ==> r.ack == DecimalValue(fields[0]) && r.from == DecimalValue(fields[1])
    ensures r.Params? ==> INT_MIN <= r.ack <= INT_MAX && INT_MIN <= r.from <= INT_MAX
  {
    if |fields| < 2 then IndexOutOfBounds
    else if ParseInt(fields[1]).None? || ParseInt(fields[0]).None? then NumberFormat
    else Params(ParseInt(fields[0]).value, ParseInt(fields[1]).value)
  }

  /** `s` is the decimal form of an `int`, as `Integer.parseInt` accepts it. */
  predicate IsInt(s: string) {
    IsDecimal(s) && INT_MIN <= DecimalValue(s) <= INT_MAX
  }

  /** `replicas=a/b` written from two `int`s reads back as `ack = a`, `from = b`, whatever `ack=` and `from=` say. */
  lemma ReplicasTakePrecedence(request: Request, clusterSize: int, ack: int, from: int)
    requires INT_MIN <= ack <= INT_MAX && INT_MIN <= from <= INT_MAX
    requires GetParameter(request, "replicas") == Some(IntToString(ack) + "/" + IntToString(from))
    ensures FromHeader(request, clusterSize) == Params(ack, from)
  {
    NoSlashInNumber(ack);
    NoSlashInNumber(from);
    assert IntToString(ack) + "/" + IntToString(from) == IntToString(ack) + ['/'] + IntToString(from);
    SplitTwoFields(IntToString(ack), IntToString(from), '/');
    ParseIntToString(ack, INT_MIN, INT_MAX);
    ParseIntToString(from, INT_MIN, INT_MAX);
  }

  /** Without any replication parameter, `from` is the cluster size and `ack` its majority (or `from` when that exceeds the cluster). */
  lemma DefaultParams(request: Request, clusterSize: int)
    requires GetParameter(request, "replicas").None? && GetParameter(request, "ack").None? && GetParameter(request, "from").None?
    ensures FromHeader(request, clusterSize) == Params(DefaultAck(clusterSize, clusterSize), clusterSize)
    ensures clusterSize >= 1 ==> FromHeader(request, clusterSize) == Params(clusterSize / 2 + 1, clusterSize)
  {
  }

  /** Without `replicas=`, an explicit `from=b` is used and `ack` falls back to the majority of `b` when absent. */
  lemma ExplicitFrom(request: Request, clusterSize: int, from: int)
    requires INT_MIN <= from <= INT_MAX
    requires GetParameter(request, "replicas").None? && GetParameter(request, "ack").None?
    requires GetParameter(request, "from") == Some(IntToString(from))
    ensures FromHeader(request, clusterSize) == Params(DefaultAck(from, clusterSize), from)
  {
    ParseIntToString(from, INT_MIN, INT_MAX);
  }

  /** Without `replicas=` and `from=`, an explicit `ack=a` is used and `from` is the cluster size. */
  lemma ExplicitAck(request: Request, clusterSize: int, ack: int)
    requires INT_MIN <= ack <= INT_MAX
    requires GetParameter(request, "replicas").None? && GetParameter(request, "from").None?
    requires GetParameter(request, "ack") == Some(IntToString(ack))
    ensures FromHeader(request, clusterSize) == Params(ack, clusterSize)
  {
    ParseIntToString(ack, INT_MIN, INT_MAX);
  }

  /** Without `replicas=`, `ack=a&from=b` reads back as `ack = a`, `from = b`. */
  lemma ExplicitAckAndFrom(request: Request, clusterSize: int, ack: int, from: int)
    requires INT_MIN <= ack <= INT_MAX && INT_MIN <= from <= INT_MAX
    requires GetParameter(request, "replicas").None?
    requires GetParameter(request, "ack") == Some(IntToString(ack))
    requires GetParameter(request, "from") == Some(IntToString(from))
    ensures FromHeader(request, clusterSize) == Params(ack, from)
  {
    ParseIntToString(ack, INT_MIN, INT_MAX);
    ParseIntToString(from, INT_MIN, INT_MAX);
  }

  /** Without `replicas=`, an `ack=` that is not an `int` is a NumberFormatException, whatever `from=` says. */
  lemma MalformedAckIsNumberFormat(request: Request, clusterSize: int)
    requires GetParameter(request, "replicas").None?
    requires GetParameter(request, "ack").Some? && !IsInt(GetParameter(request, "ack").value)
    ensures FromHeader(request, clusterSize) == NumberFormat
  {
  }

  /** The majority default: at least one more than half of a non-negative `from`, and never above the cluster size unless it is `from` itself. */
  lemma DefaultAckBounds(from: int, clusterSize: int)
    ensures var a := DefaultAck(from, clusterSize);
      (a <= clusterSize || a == from) && (from >= 0 && a != from ==> 2 * a > from)
  {
  }

  // ---------------------------------------------------------------------------
  // The local store

  /** `TimeStampingDao.TimeStampedValue`: `value == None` is a tombstone. */
  datatype TimeStampedValue = TimeStampedValue(value: Option<seq<byte>>, time: int)

  /** The store behind `TimeStampingDao`, keyed by entity id. */
  class TimeStampingDao {
    var entries: map<string, TimeStampedValue>

    constructor ()
      ensures entries == map[]
    {
      entries := map[];
    }

    /** `get`: `None` is Java's null for an id never written. */
    method Get(id: string) returns (entry: Option<TimeStampedValue>)
      ensures entry.Some? <==> id in entries
      ensures entry.Some? ==> entry.value == entries[id]
    {
      entry := if id in entries then Some(entries[id]) else None;
    }

    /** `upsert`: the entry of `id` becomes `(value, time)`. */
    method Upsert(id: string, value: Option<seq<byte>>, time: int)
      modifies this
      ensures entries == old(entries)[id := TimeStampedValue(value, time)]
    {
      entries := entries[id := TimeStampedValue(value, time)];
    }
  }

  /** `handleGet`'s answer for `id`: 404 without a body when never written, 404 with the timestamp for a tombstone, 200 with value and timestamp otherwise. */
  function GetResponse(entries: map<string, TimeStampedValue>, id: string): (r: Response)
    ensures id !in entries <==> r == Response(NOT_FOUND, Empty)
    ensures id in entries ==> (entries[id].value.None? <==> r == Response(NOT_FOUND, TimeBytes(entries[id].time)))
    ensures id in entries && entries[id].value.Some? ==> r == Response(OK, ValueAndTime(entries[id].value.value, entries[id].time))
  {
    if id !in entries then Response(NOT_FOUND, Empty)
    else
      var entry := entries[id];
      if entry.value.None? then Response(NOT_FOUND, TimeBytes(entry.time))
      else Response(OK, ValueAndTime(entry.value.value, entry.time))
  }

  /** The store after `handleInnerRequest`: PUT upserts `(body, time)`, DELETE a tombstone, anything else changes nothing. */
  function ApplyInner(entries: map<string, TimeStampedValue>, request: Request, id: string, time: int): map<string, TimeStampedValue> {
    match request.requestMethod
    case PUT => entries[id := TimeStampedValue(request.body, time)]
    case DELETE => entries[id := TimeStampedValue(None, time)]
    case _ => entries
  }

  /** `handleInnerRequest`'s response: GET reads, PUT answers 201, DELETE 202, any other method 405. */
  function InnerResponse(entries: map<string, TimeStampedValue>, request: Request, id: string): Response {
    match request.requestMethod
    case GET => GetResponse(entries, id)
    case PUT => Response(CREATED, Empty)
    case DELETE => Response(ACCEPTED, Empty)
    case _ => Response(METHOD_NOT_ALLOWED, Empty)
  }

  /** A value written by PUT reads back with the coordinator's timestamp. */
  lemma ReadAfterPut(entries: map<string, TimeStampedValue>, request: Request, id: string, time: int)
    requires request.requestMethod == PUT && request.body.Some?
    ensures GetResponse(ApplyInner(entries, request, id, time), id) == Response(OK, ValueAndTime(request.body.value, time))
  {
  }

  /** After DELETE the id reads as a tombstone: 404 carrying the deletion time, unlike an id never written. */
  lemma ReadAfterDelete(entries: map<string, TimeStampedValue>, request: Request, id: string, time: int)
    requires request.requestMethod == DELETE
    ensures GetResponse(ApplyInner(entries, request, id, time), id) == Response(NOT_FOUND, TimeBytes(time))
    ensures GetResponse(ApplyInner(entries, request, id, time), id) != GetResponse(map[], id)
  {
  }

  /** Repeating a DELETE with the same timestamp changes nothing more. */
  lemma DeleteIsIdempotent(entries: map<string, TimeStampedValue>, request: Request, id: string, time: int)
    requires request.requestMethod == DELETE
    ensures ApplyInner(ApplyInner(entries, request, id, time), request, id, time) == ApplyInner(entries, request, id, time)
  {
  }

  /** A write touches its own id only; GET and the rejected methods touch nothing. */
  lemma WritesAreLocal(entries: map<string, TimeStampedValue>, request: Request, id: string, time: int, other: string)
    requires other != id
    ensures GetResponse(ApplyInner(entries, request, id, time), other) == GetResponse(entries, other)
    ensures request.requestMethod != PUT && request.requestMethod != DELETE ==> ApplyInner(entries, request, id, time) == entries
  {
    assert ApplyInner(entries, request, id, time) == entries || ApplyInner(entries, request, id, time) - {id} == entries - {id};
    assert other in ApplyInner(entries, request, id, time) <==> other in entries;
  }

  // ---------------------------------------------------------------------------
  // handleRequest

  /** What `handleRequest` leads to. */
  datatype Outcome =
    | Responded(response: Response)
    | Replicate(key: string, time: int, ack: int, from: int)  // handed to `ReplicationManager.handleReplicatingRequest`
    | NotHandled                                              // an exception escapes, or a null id reaches the store

  /** The validation of a client request: path, key and `0 < ack <= from`; `from` is not checked against the cluster size. */
  predicate ValidClientRequest(request: Request, ack: int, from: int) {
    && request.path == "/v0/entity"
    && GetParameter(request, "id").Some? && GetParameter(request, "id").value != ""
    && !(ack > from) && !(ack <= 0)
  }

  /**
   * The client branch of `handleRequest`: a refused runnable answers 503; bad
   * replication parameters or a failed validation answer 400; a valid
   * request is replicated with the current time `now`.
   */
  function ClientDecision(request: Request, clusterSize: int, poolAccepts: bool, now: int): (o: Outcome)
    ensures o.Replicate? <==> poolAccepts && FromHeader(request, clusterSize).Params? &&
                              ValidClientRequest(request, FromHeader(request, clusterSize).ack, FromHeader(request, clusterSize).from)
    ensures o.Replicate? ==> o == Replicate(GetParameter(request, "id").value, now,
                                            FromHeader(request, clusterSize).ack, FromHeader(request, clusterSize).from)
    ensures o.NotHandled? <==> FromHeader(request, clusterSize).IndexOutOfBounds?
    ensures o.Responded? ==> o.response.body == Empty && o.response.status in {BAD_REQUEST, SERVICE_UNAVAILABLE}
    ensures o.Responded? ==> (o.response.status == SERVICE_UNAVAILABLE <==> !poolAccepts)
  {
    match FromHeader(request, clusterSize)
    case IndexOutOfBounds => NotHandled
    case NumberFormat =>
      if poolAccepts then Responded(Response(BAD_REQUEST, Empty)) else Responded(Response(SERVICE_UNAVAILABLE, Empty))
    case Params(ack, from) =>
      if !poolAccepts then Responded(Response(SERVICE_UNAVAILABLE, Empty))
      else if !ValidClientRequest(request, ack, from) then Responded(Response(BAD_REQUEST, Empty))
      else Replicate(GetParameter(request, "id").value, now, ack, from)
  }

  /**
   * Once the runnable runs and the parameters parse, a client request answers
   * 400 exactly when its path is not `/v0/entity`, its id is missing or
   * empty, `ack > from` or `ack <= 0`; a `from` above the cluster size passes.
   */
  lemma ClientBadRequestRules(request: Request, clusterSize: int, now: int, ack: int, from: int)
    requires FromHeader(request, clusterSize) == Params(ack, from)
    ensures ClientDecision(request, clusterSize, true, now) == Responded(Response(BAD_REQUEST, Empty)) <==>
              request.path != "/v0/entity" || GetParameter(request, "id") in {None, Some("")} || ack > from || ack <= 0
  {
  }

  /** A `from=` that is not an `int` answers 400 once the runnable runs, before `ack=` is looked at. */
  lemma MalformedFromIsBadRequest(request: Request, clusterSize: int, now: int)
    requires GetParameter(request, "replicas").None?
    requires GetParameter(request, "from").Some? && ParseInt(GetParameter(request, "from").value).None?
    ensures FromHeader(request, clusterSize) == NumberFormat
    ensures ClientDecision(request, clusterSize, true, now) == Responded(Response(BAD_REQUEST, Empty))
  {
  }

  /** `replicas=` with fewer than two fields throws out of `handleRequest`: nothing is answered. */
  lemma ShortReplicasIsNotHandled(request: Request, clusterSize: int, poolAccepts: bool, now: int, a: string)
    requires GetParameter(request, "replicas") == Some(a) && '/' !in a
    ensures ClientDecision(request, clusterSize, poolAccepts, now) == NotHandled
  {
  }

  /**
   * The node's server. `coordinatorTimestampHeader` is the name of the
   * header by which a coordinator passes its timestamp to a replica.
   */
  class CustomHttpServer {
    const clusterSize: int
    const coordinatorTimestampHeader: string
    const dao: TimeStampingDao

    constructor (clusterSize: int, coordinatorTimestampHeader: string)
      ensures this.clusterSize == clusterSize && this.coordinatorTimestampHeader == coordinatorTimestampHeader
      ensures fresh(dao) && dao.entries == map[]
    {
      this.clusterSize := clusterSize;
      this.coordinatorTimestampHeader := coordinatorTimestampHeader;
      dao := new TimeStampingDao();
    }

    method HandleGet(id: string) returns (r: Response)
      ensures r == GetResponse(dao.entries, id)
    {
      var entry := dao.Get(id);
      if entry.None? {
        return Response(NOT_FOUND, Empty);
      }
      if entry.value.value.None? {
        return Response(NOT_FOUND, TimeBytes(entry.value.time));
      }
      return Response(OK, ValueAndTime(entry.value.value.value, entry.value.time));
    }

    method HandleDelete(id: string, time: int) returns (r: Response)
      modifies dao
      ensures dao.entries == old(dao.entries)[id := TimeStampedValue(None, time)]
      ensures r == Response(ACCEPTED, Empty)
    {
      dao.Upsert(id, None, time);
      return Response(ACCEPTED, Empty);
    }

    /** A PUT without a body stores a null value, that is, a tombstone. */
    method HandlePut(id: string, request: Request, time: int) returns (r: Response)
      modifies dao
      ensures dao.entries == old(dao.entries)[id := TimeStampedValue(request.body, time)]
      ensures r == Response(CREATED, Empty)
    {
      dao.Upsert(id, request.body, time);
      return Response(CREATED, Empty);
    }

    method HandleInnerRequest(request: Request, id: string, time: int) returns (r: Response)
      modifies dao
      ensures dao.entries == ApplyInner(old(dao.entries), request, id, time)
      ensures r == InnerResponse(old(dao.entries), request, id)
    {
      match request.requestMethod {
        case GET => r := HandleGet(id);
        case PUT => r := HandlePut(id, request, time);
        case DELETE => r := HandleDelete(id, time);
        case _ => r := Response(METHOD_NOT_ALLOWED, Empty);
      }
    }

    /**
     * `handleRequest`. With the coordinator header the runnable parses the
     * timestamp (400 when it is not a `long`) and runs the request against
     * the store; otherwise the client branch decides. `poolAccepts` says
     * whether the workers pool took the runnable; `now` is the current time.
     */
    method HandleRequest(request: Request, poolAccepts: bool, now: int) returns (o: Outcome)
      modifies dao
      ensures GetHeader(request, coordinatorTimestampHeader + ":").None? ==>
                o == ClientDecision(request, clusterSize, poolAccepts, now) && dao.entries == old(dao.entries)
      ensures GetHeader(request, coordinatorTimestampHeader + ":").Some? ==>
                o == InnerOutcome(old(dao.entries), request, poolAccepts, GetHeader(request, coordinatorTimestampHeader + ":").value)
                && dao.entries == InnerEntries(old(dao.entries), request, poolAccepts, GetHeader(request, coordinatorTimestampHeader + ":").value)
    {
      var key := GetParameter(request, "id");
      var coordinatorTimestamp := GetHeader(request, coordinatorTimestampHeader + ":");
      if coordinatorTimestamp.Some? {
        if !poolAccepts {
          return Responded(Response(SERVICE_UNAVAILABLE, Empty));
        }
        var time := ParseLong(coordinatorTimestamp.value);
        if time.None? {
          return Responded(Response(BAD_REQUEST, Empty));
        }
        if key.None? && IsEntityMethod(request.requestMethod) {
          return NotHandled;
        }
        var response := HandleInnerRequest(request, if key.Some? then key.value else "", time.value);
        return Responded(response);
      }
      o := ClientDecision(request, clusterSize, poolAccepts, now);
    }
  }

  /** What the coordinator-header branch answers, for the header value `header`. */
  function InnerOutcome(entries: map<string, TimeStampedValue>, request: Request, poolAccepts: bool, header: string): (o: Outcome)
    ensures !poolAccepts ==> o == Responded(Response(SERVICE_UNAVAILABLE, Empty))
    ensures poolAccepts && ParseLong(header).None? ==> o == Responded(Response(BAD_REQUEST, Empty))
    ensures o.NotHandled? <==> poolAccepts && ParseLong(header).Some? && GetParameter(request, "id").None? && IsEntityMethod(request.requestMethod)
    ensures poolAccepts && ParseLong(header).Some? && GetParameter(request, "id").Some? ==>
              o == Responded(InnerResponse(entries, request, GetParameter(request, "id").value))
    ensures poolAccepts && ParseLong(header).Some? && !IsEntityMethod(request.requestMethod) ==>
              o == Responded(Response(METHOD_NOT_ALLOWED, Empty))
  {
    var key := GetParameter(request, "id");
    if !poolAccepts then Responded(Response(SERVICE_UNAVAILABLE, Empty))
    else if ParseLong(header).None? then Responded(Response(BAD_REQUEST, Empty))
    else if key.None? && IsEntityMethod(request.requestMethod) then NotHandled
    else Responded(InnerResponse(entries, request, if key.Some? then key.value else ""))
  }

  /** The store after the coordinator-header branch: changed only by a write whose timestamp parsed. */
  function InnerEntries(entries: map<string, TimeStampedValue>, request: Request, poolAccepts: bool, header: string): (e: map<string, TimeStampedValue>)
    ensures !poolAccepts || ParseLong(header).None? ==> e == entries
    ensures !IsEntityMethod(request.requestMethod) || request.requestMethod == GET ==> e == entries
    ensures poolAccepts && ParseLong(header).Some? && GetParameter(request, "id").Some? ==>
              e == ApplyInner(entries, request, GetParameter(request, "id").value, ParseLong(header).value)
  {
    var key := GetParameter(request, "id");
    if !poolAccepts || ParseLong(header).None? then entries
    else if key.None? && IsEntityMethod(request.requestMethod) then entries
    else ApplyInner(entries, request, if key.Some? then key.value else "", ParseLong(header).value)
  }

  /** The coordinator's timestamp, written with `Long.toString`, is stored unchanged by a replicated PUT or DELETE. */
  lemma CoordinatorTimestampIsVerbatim(entries: map<string, TimeStampedValue>, request: Request, time: int, id: string)
    requires LONG_MIN <= time <= LONG_MAX
    requires request.requestMethod == PUT || request.requestMethod == DELETE
    requires GetParameter(request, "id") == Some(id)
    ensures id in InnerEntries(entries, request, true, IntToString(time))
    ensures InnerEntries(entries, request, true, IntToString(time))[id].time == time
    ensures InnerEntries(entries, request, true, IntToString(time))[id].value ==
              (if request.requestMethod == PUT then request.body else None)
  {
    ParseIntToString(time, LONG_MIN, LONG_MAX);
  }
}
