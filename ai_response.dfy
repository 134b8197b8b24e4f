/** The handling of a generative-model reply shared by actions/cars.js and
    actions/home.js: the reply text is cleaned of Markdown code fences and
    surrounding white space, then parsed as JSON. The model call and the JSON
    parser are outside the model; they arrive as a `ModelReply` and a `parse`
    function. */
module AiResponse {
  import opened Common

  /** A JSON value as `JSON.parse` produces it. */
  datatype Json =
    | JNull
    | JBool(b: bool)
    | JNumber(n: real)
    | JString(s: string)
    | JArray(items: seq<Json>)
    | JObject(fields: seq<(string, Json)>)

  /** The outcome of `model.generateContent(...)` followed by `response.text()`. */
  datatype ModelReply = Text(text: string) | ModelError(message: string)

  const FENCE := "```"

  // ---------------------------------------------------------------------------
  // Fence stripping: `text.replace(/```(?:json)?\n?/g, '')`
  // ---------------------------------------------------------------------------

  /** Removes, scanning left to right, every "```" together with a directly
      following "json" and then a directly following newline, each optional. */
  function StripFences(s: string): (r: string)
    ensures |r| <= |s|
    decreases |s|
  {
    if |s| < 3 then s
    else if s[..3] == FENCE then
      var t := s[3..];
      var u := if |t| >= 4 && t[..4] == "json" then t[4..] else t;
      var v := if |u| >= 1 && u[0] == '\n' then u[1..] else u;
      StripFences(v)
    else [s[0]] + StripFences(s[1..])
  }

  /** A "```" starts at position `i` of `s`. */
  predicate FenceAt(s: string, i: int) {
    0 <= i && i + 3 <= |s| && s[i] == '`' && s[i + 1] == '`' && s[i + 2] == '`'
  }

  /** No "```" starts at any position of `s`. */
  predicate FenceFree(s: string) {
    forall i :: 0 <= i < |s| ==> !FenceAt(s, i)
  }

  /** A character other than a backtick is copied, and the scan moves on. */
  lemma StripHead(s: string)
    requires |s| >= 1 && s[0] != '`'
    ensures StripFences(s) == [s[0]] + StripFences(s[1..])
  {
    if |s| < 3 {
      assert s == [s[0]] + s[1..];
    }
  }

  /** The cleaned text holds no code fence: a fence left over would have been
      matched where it starts. */
  lemma {:induction false} StripFencesRemovesAll(s: string)
    ensures FenceFree(StripFences(s))
    decreases |s|
  {
    if |s| < 3 {
    } else if s[..3] == FENCE {
      var t := s[3..];
      var u := if |t| >= 4 && t[..4] == "json" then t[4..] else t;
      var v := if |u| >= 1 && u[0] == '\n' then u[1..] else u;
      StripFencesRemovesAll(v);
    } else {
      var rest := StripFences(s[1..]);
      StripFencesRemovesAll(s[1..]);
      var r := [s[0]] + rest;
      assert r == StripFences(s);
      if s[0] == '`' && |rest| >= 2 {
        var t := s[1..];
        assert !(t[0] == '`' && t[1] == '`') by {
          assert s[..3] == [s[0], t[0], t[1]];
        }
        if t[0] == '`' {
          assert t[1] != '`';
          if |t| < 3 {
            assert rest == t;
          } else {
            assert t[..3] != FENCE;
            assert rest == [t[0]] + StripFences(t[1..]);
            StripHead(t[1..]);
          }
          assert rest[1] != '`';
        } else {
          StripHead(t);
        }
      }
      forall i | 0 <= i < |r| ensures !FenceAt(r, i) {
        if i > 0 {
          assert FenceAt(r, i) ==> FenceAt(rest, i - 1);
        }
      }
    }
  }

  /** A text with no backtick is left as it is. */
  lemma {:induction false} StripFencesKeepsPlainText(s: string)
    requires forall i :: 0 <= i < |s| ==> s[i] != '`'
    ensures StripFences(s) == s
    decreases |s|
  {
    if |s| >= 1 {
      StripHead(s);
      StripFencesKeepsPlainText(s[1..]);
      assert s == [s[0]] + s[1..];
    }
  }

  // ---------------------------------------------------------------------------
  // `String.prototype.trim`
  // ---------------------------------------------------------------------------

  /** The white space and line terminators `trim` removes. */
  predicate IsSpace(c: char) {
    var n := c as int;
    || (0x09 <= n <= 0x0D) || n == 0x20 || n == 0xA0 || n == 0x1680
    || (0x2000 <= n <= 0x200A) || n == 0x2028 || n == 0x2029 || n == 0x202F
    || n == 0x205F || n == 0x3000 || n == 0xFEFF
  }

  /** The number of leading white-space characters. */
  function LeadingSpace(s: string): (n: nat)
    ensures n <= |s|
    ensures forall i :: 0 <= i < n ==> IsSpace(s[i])
    ensures n < |s| ==> !IsSpace(s[n])
  {
    if s == [] || !IsSpace(s[0]) then 0 else 1 + LeadingSpace(s[1..])
  }

  /** The number of trailing white-space characters. */
  function TrailingSpace(s: string): (n: nat)
    ensures n <= |s|
    ensures forall i :: |s| - n <= i < |s| ==> IsSpace(s[i])
    ensures n < |s| ==> !IsSpace(s[|s| - n - 1])
  {
    if s == [] || !IsSpace(s[|s| - 1]) then 0 else 1 + TrailingSpace(s[..|s| - 1])
  }

  /** `s.trim()`: the slice of `s` between its leading and trailing white
      space; it neither starts nor ends with white space, and all that was cut
      away is white space. */
  function Trim(s: string): (r: string)
    ensures exists i, j ::
      (0 <= i <= j <= |s| && r == s[i..j]
      && (forall k :: 0 <= k < i ==> IsSpace(s[k]))
      && (forall k :: j <= k < |s| ==> IsSpace(s[k])))
    ensures |r| > 0 ==> !IsSpace(r[0]) && !IsSpace(r[|r| - 1])
  {
    var i := LeadingSpace(s);
    var t := s[i..];
    var n := TrailingSpace(t);
    var r := t[..|t| - n];
    assert r == s[i..i + |t| - n];
    forall k | i + |t| - n <= k < |s| ensures IsSpace(s[k]) {
      assert s[k] == t[k - i];
    }
    r
  }

  /** `text.replace(/```(?:json)?\n?/g, '').trim()`. */
  function Clean(text: string): (r: string)
    ensures FenceFree(StripFences(text))
    ensures FenceFree(r)
    ensures |r| > 0 ==> !IsSpace(r[0]) && !IsSpace(r[|r| - 1])
  {
    var stripped := StripFences(text);
    StripFencesRemovesAll(text);
    var r := Trim(stripped);
    var i, j :| 0 <= i <= j <= |stripped| && r == stripped[i..j];
    SliceFenceFree(stripped, i, j);
    r
  }

  /** A piece of fence-free text is fence-free. */
  lemma SliceFenceFree(s: string, i: nat, j: nat)
    requires i <= j <= |s| && FenceFree(s)
    ensures FenceFree(s[i..j])
  {
    var t := s[i..j];
    forall k | 0 <= k < |t| ensures !FenceAt(t, k) {
      assert !FenceAt(s, i + k);
      if k + 3 <= |t| {
        assert t[k] == s[i + k] && t[k + 1] == s[i + k + 1] && t[k + 2] == s[i + k + 2];
      }
    }
  }

  /** A fenced reply is cleaned to its body. */
  lemma CleanFencedBody(body: string)
    requires forall i :: 0 <= i < |body| ==> body[i] != '`'
    requires |body| > 0 && !IsSpace(body[0]) && !IsSpace(body[|body| - 1])
    ensures Clean("```json\n" + body + "```") == body
  {
    var s := "```json\n" + body + "```";
    assert s[..3] == FENCE;
    assert s[3..][..4] == "json";
    assert s[3..][4..][0] == '\n';
    assert s[3..][4..][1..] == body + "```";
    StripFencesTail(body);
    StripFencesKeepsPlainText(body);
    assert StripFences(s) == body;
    TrimKeeps(body);
  }

  /** Text without backticks followed by a closing fence loses only the fence. */
  lemma {:induction false} StripFencesTail(body: string)
    requires forall i :: 0 <= i < |body| ==> body[i] != '`'
    ensures StripFences(body + "```") == StripFences(body)
    decreases |body|
  {
    if body == [] {
      assert [] + "```" == "```";
      assert "```"[..3] == FENCE;
    } else {
      StripHead(body + "```");
      StripHead(body);
      assert (body + "```")[1..] == body[1..] + "```";
      StripFencesTail(body[1..]);
    }
  }

  lemma TrimKeeps(s: string)
    requires |s| > 0 && !IsSpace(s[0]) && !IsSpace(s[|s| - 1])
    ensures Trim(s) == s
  {
    assert LeadingSpace(s) == 0;
    assert s[0..] == s;
    assert TrailingSpace(s) == 0;
  }

  // ---------------------------------------------------------------------------
  // Required fields
  // ---------------------------------------------------------------------------

  /** The fields `processCarImageWithAI` requires, in the order it lists them. */
  const REQUIRED: seq<string> := [
    "make", "model", "year", "color", "bodyType", "price", "mileage",
    "fuelType", "transmission", "description", "confidence"]

  /** `field in carDetails` for a parsed object. */
  predicate HasField(fields: seq<(string, Json)>, name: string) {
    exists k :: 0 <= k < |fields| && fields[k].0 == name
  }

  /** `names.filter(field => !(field in carDetails))`. */
  function Missing(names: seq<string>, fields: seq<(string, Json)>): (r: seq<string>)
    ensures forall n :: n in r <==> n in names && !HasField(fields, n)
    ensures |r| <= |names|
  {
    if names == [] then []
    else
      var rest := Missing(names[1..], fields);
      assert names == [names[0]] + names[1..];
      if HasField(fields, names[0]) then rest else [names[0]] + rest
  }

  function MissingFields(fields: seq<(string, Json)>): (r: seq<string>)
    ensures r == [] <==> forall n :: n in REQUIRED ==> HasField(fields, n)
  {
    var r := Missing(REQUIRED, fields);
    assert r != [] ==> r[0] in r;
    r
  }

  /** A reply object with every field except `confidence` misses exactly that one. */
  lemma OnlyConfidenceMissing(fields: seq<(string, Json)>)
    requires forall n :: n in REQUIRED && n != "confidence" ==> HasField(fields, n)
    requires !HasField(fields, "confidence")
    ensures MissingFields(fields) == ["confidence"]
  {
    var r := MissingFields(fields);
    assert "confidence" in r;
    MissingOrder(REQUIRED, fields);
    assert forall n :: n in r ==> n == "confidence";
    assert |r| == 1 by {
      if |r| > 1 {
        FirstTwoDiffer(r);
        assert false;
      }
    }
  }

  lemma FirstTwoDiffer(r: seq<string>)
    requires forall i, j :: 0 <= i < j < |r| ==> r[i] != r[j]
    requires |r| > 1
    ensures r[0] in r && r[1] in r && r[0] != r[1]
  {
  }

  /** The missing names come out in list order, so none repeats when the list has none. */
  lemma {:induction false} MissingOrder(names: seq<string>, fields: seq<(string, Json)>)
    requires forall i, j :: 0 <= i < j < |names| ==> names[i] != names[j]
    ensures forall i, j :: 0 <= i < j < |Missing(names, fields)| ==>
      Missing(names, fields)[i] != Missing(names, fields)[j]
  {
    if names != [] {
      var rest := Missing(names[1..], fields);
      MissingOrder(names[1..], fields);
      assert names[0] !in names[1..] by {
        forall k | 0 <= k < |names[1..]| ensures names[1..][k] != names[0] {
          assert names[1..][k] == names[k + 1];
        }
      }
      assert names[0] !in rest;
    }
  }

  const PARSE_FAILED := "Failed to parse AI response"

  /** The inner `try` of `processCarImageWithAI`: the cleaned text must parse,
      and the value must be an object holding every required field. A value
      that is not an object makes the `in` test throw, which the same `catch`
      reports as a parse failure. */
  function CheckCarDetails(parsed: Option<Json>): (r: Reply<Json>)
    ensures r.Ok? <==> parsed.Some? && parsed.value.JObject? && MissingFields(parsed.value.fields) == []
    ensures r.Ok? ==> r.data == parsed.value
    ensures !r.Ok? ==> r == Fail(PARSE_FAILED)
  {
    match parsed
    case None => Fail(PARSE_FAILED)
    case Some(j) =>
      if !j.JObject? then Fail(PARSE_FAILED)
      else if |MissingFields(j.fields)| > 0 then Fail(PARSE_FAILED)
      else Ok(j)
  }
}
