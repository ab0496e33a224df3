/**
 * The choice, inside sendMessage (frontend/script.js:155-161), of the text a
 * bot message shows for a backend response: the body's `response` field when
 * it is a string, and otherwise the whole body pretty-printed as JSON, an
 * unparsable body first being replaced by `{error: 'Invalid JSON response'}`.
 * JSON.stringify is left abstract: the choice is stated for every printer.
 */
module Response {
  import opened Text

  /** A value JSON.parse can return. An object keeps its members in the order the JSON text lists them, duplicates included. */
  datatype Json =
    | Null
    | Bool(b: bool)
    | Number(n: int)
    | Str(s: string)
    | Arr(items: seq<Json>)
    | Obj(members: seq<(string, Json)>)

  /** What response.json() settles to: a parsed value, or a rejection. */
  datatype Body = Parsed(value: Json) | Unparsable

  /** The object the `.catch` of response.json() substitutes. */
  const INVALID_JSON: Json := Obj([("error", Str("Invalid JSON response"))])

  /**
   * The value of member `key` of an object as JSON.parse builds it: the last
   * member under that key wins.
   */
  function Member(members: seq<(string, Json)>, key: string): (r: Option<Json>)
    ensures r.Some? <==> exists i :: 0 <= i < |members| && members[i].0 == key
    ensures r.Some? ==> exists i :: 0 <= i < |members| && members[i] == (key, r.value)
                         && forall j :: i < j < |members| ==> members[j].0 != key
    decreases |members|
  {
    if members == [] then None
    else
      var last := members[|members| - 1];
      if last.0 == key then Some(last.1)
      else
        var r := Member(members[..|members| - 1], key);
        MemberOfPrefix(members, members[..|members| - 1], key, r);
        r
  }

  /** A lookup in all but the last member, when that one has another key, answers for the whole. */
  lemma MemberOfPrefix(members: seq<(string, Json)>, init: seq<(string, Json)>, key: string, r: Option<Json>)
    requires members != [] && init == members[..|members| - 1] && members[|members| - 1].0 != key
    requires r.Some? <==> exists i :: 0 <= i < |init| && init[i].0 == key
    requires r.Some? ==> exists i :: 0 <= i < |init| && init[i] == (key, r.value)
                          && forall j :: i < j < |init| ==> init[j].0 != key
    ensures r.Some? <==> exists i :: 0 <= i < |members| && members[i].0 == key
    ensures r.Some? ==> exists i :: 0 <= i < |members| && members[i] == (key, r.value)
                         && forall j :: i < j < |members| ==> members[j].0 != key
  {
    assert forall i :: 0 <= i < |init| ==> init[i] == members[i];
  }

  /** `data?.response` when its type is string: only an object has the field. */
  function StringResponse(data: Json): Option<string> {
    match data
    case Obj(members) =>
      (match Member(members, "response")
       case Some(Str(s)) => Some(s)
       case _ => None)
    case _ => None
  }

  /** `data`: the parsed body, or the error object when parsing failed. */
  function Data(body: Body): Json {
    if body.Parsed? then body.value else INVALID_JSON
  }

  /** responseContent for a body, given the printer JSON.stringify(·, null, 2). */
  function ResponseContent(body: Body, stringify: Json -> string): (r: string)
    ensures StringResponse(Data(body)).Some? ==> r == StringResponse(Data(body)).value
    ensures StringResponse(Data(body)).None? ==> r == stringify(Data(body))
  {
    match StringResponse(Data(body))
    case Some(s) => s
    case None => stringify(Data(body))
  }

  // ---------------------------------------------------------------------
  // What a user sees

  /** A string `response` member, the last of its name, is shown verbatim, whatever else the object holds. */
  lemma VerbatimResponse(members: seq<(string, Json)>, s: string, later: seq<(string, Json)>, stringify: Json -> string)
    requires forall i :: 0 <= i < |later| ==> later[i].0 != "response"
    ensures ResponseContent(Parsed(Obj(members + [("response", Str(s))] + later)), stringify) == s
  {
    LastMemberWins(members + [("response", Str(s))], later, "response");
    assert Member(members + [("response", Str(s))], "response") == Some(Str(s));
  }

  lemma {:induction false} LastMemberWins(front: seq<(string, Json)>, later: seq<(string, Json)>, key: string)
    requires forall i :: 0 <= i < |later| ==> later[i].0 != key
    ensures Member(front + later, key) == Member(front, key)
    decreases |later|
  {
    if later != [] {
      var shorter := later[..|later| - 1];
      MembersUnsnoc(front, later);
      LastMemberWins(front, shorter, key);
    } else {
      assert front + later == front;
    }
  }

  lemma MembersUnsnoc(front: seq<(string, Json)>, later: seq<(string, Json)>)
    requires later != []
    ensures (front + later)[|front + later| - 1] == later[|later| - 1]
    ensures (front + later)[..|front + later| - 1] == front + later[..|later| - 1]
  {
  }

  /** A body that is not an object, or whose `response` is missing or not a string, is printed whole. */
  lemma PrintedWhole(data: Json, stringify: Json -> string)
    requires !data.Obj? || Member(data.members, "response").None? || !Member(data.members, "response").value.Str?
    ensures ResponseContent(Parsed(data), stringify) == stringify(data)
  {
  }

  /** An unparsable body shows the printed error object, which has no `response` member. */
  lemma UnparsableShowsError(stringify: Json -> string)
    ensures Member(INVALID_JSON.members, "response").None?
    ensures ResponseContent(Unparsable, stringify) == stringify(INVALID_JSON)
  {
    assert INVALID_JSON.members[0].0 == "error";
    assert "error" != "response" by {
      assert "error"[0] != "response"[0];
    }
  }

  /** A shown text that is not the printed body is the body's string `response`. */
  lemma ShownTextOrigin(body: Body, stringify: Json -> string)
    requires ResponseContent(body, stringify) != stringify(Data(body))
    ensures body.Parsed? && body.value.Obj?
    ensures Member(body.value.members, "response") == Some(Str(ResponseContent(body, stringify)))
  {
    UnparsableShowsError(stringify);
  }
}
