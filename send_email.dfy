/** The e-mail route: the plain-text flattening of the submitted answers and the
    HTTP status the route answers with.  Mail transport is an input. */
module SendEmail {
  import Text
  import DynamicForm
  import opened Schema

  /** A parsed JSON value.  Numbers are integers; an object is the ordered list of
      its entries, in the order `Object.entries` yields them. */
  datatype Json =
    | JNull
    | JBool(b: bool)
    | JNum(n: int)
    | JStr(s: string)
    | JArr(items: seq<Json>)
    | JObj(members: seq<Member>)

  datatype Member = Member(key: string, value: Json)

  /** `typeof value === "object" && value !== null`: arrays count as objects. */
  predicate IsObject(j: Json) {
    j.JArr? || j.JObj?
  }

  /** `${value}` for a value that is not an object. */
  function Show(j: Json): (r: string)
    requires !IsObject(j)
    ensures j.JStr? ==> r == j.s
    ensures j.JNum? ==> r == Text.IntToString(j.n)
    ensures j.JBool? ==> (r == "true" <==> j.b) && (r == "false" <==> !j.b)
    ensures j.JNull? ==> r == "null"
  {
    match j
    case JNull => "null"
    case JBool(b) => if b then "true" else "false"
    case JNum(n) => Text.IntToString(n)
    case JStr(s) => s
  }

  /** The number of entries `Object.entries` yields: an object's members, an
      array's elements, a string's characters, and none for other primitives. */
  function EntryCount(j: Json): nat {
    match j
    case JObj(ms) => |ms|
    case JArr(xs) => |xs|
    case JStr(s) => |s|
    case _ => 0
  }

  /** The i-th entry of `Object.entries(j)`: arrays and strings are keyed by their
      decimal indices.  An entry whose value is an object is strictly inside j. */
  function Entry(j: Json, i: nat): (e: Member)
    requires i < EntryCount(j)
    ensures IsObject(e.value) ==> e.value < j
    ensures j.JObj? ==> e == j.members[i]
    ensures j.JArr? ==> e == Member(Text.NatToString(i), j.items[i])
  {
    match j
    case JObj(ms) => ms[i]
    case JArr(xs) => Member(Text.NatToString(i), xs[i])
    case JStr(s) => Member(Text.NatToString(i), JStr([s[i]]))
  }

  // ---------------------------------------------------------------------------
  // The layout of the flattened text, line by line

  /** The text of a list of lines, each terminated by a newline. */
  function Terminated(lines: seq<string>): string {
    if lines == [] then "" else lines[0] + "\n" + Terminated(lines[1..])
  }

  /** The lines of the flattened text: per entry, in entry order, either one line
      `key: value`, or for an object value a header line `key:`, the lines of the
      value, and one empty line. */
  function Lines(j: Json): seq<string>
    decreases j, EntryCount(j) + 1
  {
    LinesUpTo(j, EntryCount(j))
  }

  /** The lines of the first n entries. */
  function LinesUpTo(j: Json, n: nat): seq<string>
    requires n <= EntryCount(j)
    decreases j, n
  {
    if n == 0 then [] else LinesUpTo(j, n - 1) + EntryLines(j, n - 1)
  }

  /** The lines of the i-th entry. */
  function EntryLines(j: Json, i: nat): seq<string>
    requires i < EntryCount(j)
    decreases j, 0
  {
    var e := Entry(j, i);
    if IsObject(e.value) then [e.key + ":"] + Lines(e.value) + [""]
    else [e.key + ": " + Show(e.value)]
  }

  /** The text `formatFormData(j)` produces. */
  function Formatted(j: Json): string {
    Terminated(Lines(j))
  }

  // ---------------------------------------------------------------------------
  // The flattener

  /** `formatFormData`: walks the entries in order, appending one chunk per entry
      and recursing into object values.  `Object.entries(null)` throws, so the
      argument is not null. */
  method FormatFormData(data: Json) returns (formatted: string)
    requires !data.JNull?
    ensures formatted == Formatted(data)
    decreases data
  {
    formatted := "";
    var n := EntryCount(data);
    var i := 0;
    while i < n
      invariant 0 <= i <= n
      invariant formatted == Terminated(LinesUpTo(data, i))
    {
      var e := Entry(data, i);
      ghost var before := LinesUpTo(data, i);
      if IsObject(e.value) {
        var inner := FormatFormData(e.value);
        EntryText(data, i);
        formatted := formatted + (e.key + ":\n" + inner + "\n");
      } else {
        EntryText(data, i);
        formatted := formatted + (e.key + ": " + Show(e.value) + "\n");
      }
      TerminatedAppend(before, EntryLines(data, i));
      i := i + 1;
    }
  }

  // ---------------------------------------------------------------------------
  // Properties of the flattened text

  lemma {:induction false} TerminatedAppend(a: seq<string>, b: seq<string>)
    ensures Terminated(a + b) == Terminated(a) + Terminated(b)
  {
    if a == [] {
      assert a + b == b;
    } else {
      assert (a + b)[0] == a[0];
      assert (a + b)[1..] == a[1..] + b;
      TerminatedAppend(a[1..], b);
    }
  }

  /** What one entry contributes: `key: value` and a newline for a value that is
      not an object (null included); for an object value, `key:`, a newline, the
      value's own flattening, and a newline. */
  lemma EntryText(j: Json, i: nat)
    requires i < EntryCount(j)
    ensures var e := Entry(j, i);
      !IsObject(e.value) ==> Terminated(EntryLines(j, i)) == e.key + ": " + Show(e.value) + "\n"
    ensures var e := Entry(j, i);
      IsObject(e.value) ==> Terminated(EntryLines(j, i)) == e.key + ":\n" + Formatted(e.value) + "\n"
  {
    var e := Entry(j, i);
    if IsObject(e.value) {
      var header := [e.key + ":"];
      var body := Lines(e.value);
      TerminatedAppend(header + body, [""]);
      TerminatedAppend(header, body);
      assert Terminated(header) == e.key + ":" + "\n" by {
        assert header[1..] == [];
      }
      assert Terminated([""]) == "\n" by {
        assert [""][1..] == [];
      }
      assert e.key + ":" + "\n" == e.key + ":\n";
    } else {
      assert EntryLines(j, i)[1..] == [];
    }
  }

  /** The flattening is the concatenation of the entries' chunks in entry order:
      the first n entries' text is a prefix of the whole, and the next chunk follows it. */
  lemma {:induction false} ChunksInEntryOrder(j: Json, n: nat)
    requires n < EntryCount(j)
    ensures Terminated(LinesUpTo(j, n)) + Terminated(EntryLines(j, n)) <= Formatted(j)
  {
    var total := EntryCount(j);
    TerminatedAppend(LinesUpTo(j, n), EntryLines(j, n));
    PrefixGrows(j, n + 1, total);
  }

  lemma PrefixGrows(j: Json, m: nat, n: nat)
    requires m <= n <= EntryCount(j)
    ensures Terminated(LinesUpTo(j, m)) <= Terminated(LinesUpTo(j, n))
  {
    LinesPrefix(j, m, n);
    TerminatedMonotone(LinesUpTo(j, m), LinesUpTo(j, n));
  }

  /** The lines of fewer entries are a prefix of the lines of more entries. */
  lemma {:induction false} LinesPrefix(j: Json, m: nat, n: nat)
    requires m <= n <= EntryCount(j)
    ensures LinesUpTo(j, m) <= LinesUpTo(j, n)
    decreases n - m
  {
    if m < n {
      LinesPrefix(j, m, n - 1);
      LinesStep(j, n - 1);
      PrefixTrans(LinesUpTo(j, m), LinesUpTo(j, n - 1), LinesUpTo(j, n));
    }
  }

  lemma LinesStep(j: Json, n: nat)
    requires n < EntryCount(j)
    ensures LinesUpTo(j, n) <= LinesUpTo(j, n + 1)
  {
    var x, y := LinesUpTo(j, n), EntryLines(j, n);
    assert LinesUpTo(j, n + 1) == x + y;
    assert (x + y)[..|x|] == x;
  }

  lemma TerminatedMonotone(a: seq<string>, c: seq<string>)
    requires a <= c
    ensures Terminated(a) <= Terminated(c)
  {
    var d := c[|a|..];
    assert c == a + d;
    TerminatedAppend(a, d);
    var x, y := Terminated(a), Terminated(d);
    assert (x + y)[..|x|] == x;
  }

  lemma PrefixTrans(x: seq<string>, y: seq<string>, z: seq<string>)
    requires x <= y && y <= z
    ensures x <= z
  {
    assert z[..|y|] == y;
    assert z[..|x|] == y[..|x|];
  }

  /** A value with no entries (the empty object or array, a number, a boolean)
      flattens to the empty text, and only such a value does. */
  lemma FormattedEmptyIffNoEntries(j: Json)
    ensures Formatted(j) == "" <==> EntryCount(j) == 0
  {
    var n := EntryCount(j);
    assert Lines(j) == LinesUpTo(j, n);
    if n > 0 {
      ChunksInEntryOrder(j, n - 1);
      EntryText(j, n - 1);
      assert |Terminated(EntryLines(j, n - 1))| > 0;
    } else {
      assert LinesUpTo(j, 0) == [];
    }
  }

  /** A value with a single entry flattens to that entry's chunk. */
  lemma SingleEntry(j: Json)
    requires EntryCount(j) == 1
    ensures Formatted(j) == Terminated(EntryLines(j, 0))
  {
    var chunk := EntryLines(j, 0);
    assert Lines(j) == LinesUpTo(j, 1) == LinesUpTo(j, 0) + chunk;
    assert LinesUpTo(j, 0) == [];
    assert [] + chunk == chunk;
  }

  /** Arrays are flattened with their indices as keys. */
  lemma ArrayUsesIndexKeys()
    ensures Formatted(JArr([JStr("A")])) == "0: A\n"
  {
    var j := JArr([JStr("A")]);
    assert Text.NatToString(0) == "0";
    assert Entry(j, 0) == Member("0", JStr("A"));
    SingleEntry(j);
    EntryText(j, 0);
    assert "0" + ": " + "A" + "\n" == "0: A\n";
  }

  /** A nested object: its header line, its own lines, then an empty line. */
  lemma NestedObjectExample()
    ensures Formatted(JObj([Member("a", JObj([Member("b", JStr("c"))]))])) == "a:\nb: c\n\n"
  {
    var inner := JObj([Member("b", JStr("c"))]);
    var outer := JObj([Member("a", inner)]);
    assert Entry(inner, 0) == Member("b", JStr("c"));
    SingleEntry(inner);
    EntryText(inner, 0);
    assert "b" + ": " + "c" + "\n" == "b: c\n";
    assert Entry(outer, 0) == Member("a", inner);
    SingleEntry(outer);
    EntryText(outer, 0);
    assert "a" + ":\n" + "b: c\n" + "\n" == "a:\nb: c\n\n";
  }

  // ---------------------------------------------------------------------------
  // The route's answer

  /** Whether the mail transport accepted the client e-mail or threw. */
  datatype SendResult = Delivered | SendFailed

  datatype HttpResponse = HttpResponse(status: int, body: Json)

  /** The JSON answer: 200 with a message when the send succeeded, 500 with an
      error when it threw. */
  function ResponseFor(send: SendResult): (r: HttpResponse)
    ensures r.status == 200 <==> send == Delivered
    ensures r.status == 500 <==> send == SendFailed
  {
    match send
    case Delivered => HttpResponse(200, JObj([Member("message", JStr("Emails sent successfully"))]))
    case SendFailed => HttpResponse(500, JObj([Member("error", JStr("Failed to send emails"))]))
  }

  /** The value JSON parsing gives for `key` in a list of members: the last
      member with that key, or none. */
  function MemberValue(ms: seq<Member>, key: string): (v: Option<Json>)
    ensures v.None? <==> forall i :: 0 <= i < |ms| ==> ms[i].key != key
    ensures v.Some? ==> exists i :: && 0 <= i < |ms| && ms[i].key == key && ms[i].value == v.value
                                    && (forall j :: i < j < |ms| ==> ms[j].key != key)
  {
    if ms == [] then None
    else if ms[|ms| - 1].key == key then Some(ms[|ms| - 1].value)
    else MemberValue(ms[..|ms| - 1], key)
  }

  /** `formData.requestorInfo.email` can be read: the body is an object with a
      `requestorInfo` member that is not null.  Otherwise the read throws before
      any e-mail is handed to the transport. */
  predicate HasRequestor(formData: Json) {
    && formData.JObj?
    && var v := MemberValue(formData.members, "requestorInfo");
       v.Some? && !v.value.JNull?
  }

  /** `POST`: flattens the answers for the client e-mail's details block, hands
      the e-mail to the transport (whose result is `send`), and answers. */
  method Post(formData: Json, send: SendResult) returns (details: string, response: HttpResponse)
    requires HasRequestor(formData)
    ensures details == Formatted(formData)
    ensures response == ResponseFor(send)
  {
    details := FormatFormData(formData);
    response := ResponseFor(send);
  }

  /** `response.ok` on the client: a status in the 2xx range, so the route's
      success answer is ok and its failure answer is not. */
  function ResponseOk(status: int): (ok: bool)
    ensures ok <==> 200 <= status <= 299
    ensures status == 200 ==> ok
    ensures status == 500 ==> !ok
  {
    200 <= status <= 299
  }

  /** End to end: the form shows its success message exactly when the route
      delivered the e-mail, and the failure message otherwise. */
  lemma SubmitSucceedsIffDelivered(send: SendResult)
    ensures var shown := DynamicForm.StatusMessage(DynamicForm.Responded(ResponseOk(ResponseFor(send).status)));
      (shown == DynamicForm.SuccessMessage <==> send == Delivered) &&
      (shown == DynamicForm.FailureMessage <==> send == SendFailed)
  {
    assert DynamicForm.SuccessMessage != DynamicForm.FailureMessage by {
      assert DynamicForm.SuccessMessage[1] == 'o' && DynamicForm.FailureMessage[1] == 'a';
    }
  }
}
