/** The note factory and validator of `js/Note.js`: building and updating
    note records, checking the shape of a value, and the one-line preview
    shown in the note list. The clock and the id generator are inputs. */
module NoteFactory {
  import opened Wrappers
  import opened JsString

  /** A note as the JavaScript layer passes it around. Timestamps are the
      ISO-8601 strings produced by `Date.prototype.toISOString`. */
  datatype Note = Note(id: int, title: string, body: string, createdAt: string, updatedAt: string)

  /** The JavaScript values `validateNote` can be handed. Numbers are
      restricted to integers; objects are maps of their own properties. */
  datatype JsValue =
    | Undefined
    | Null
    | Bool(b: bool)
    | Number(n: int)
    | Str(s: string)
    | Object(props: map<string, JsValue>)

  /** JavaScript truthiness (NaN is not representable). */
  predicate Truthy(v: JsValue) {
    match v
    case Undefined => false
    case Null => false
    case Bool(b) => b
    case Number(n) => n != 0
    case Str(s) => s != ""
    case Object(_) => true
  }

  /** The property read `v.key` for the keys of a note: an object's own
      property, and `undefined` for a missing one or on a primitive. */
  function Get(v: JsValue, key: string): JsValue {
    if v.Object? && key in v.props then v.props[key] else Undefined
  }

  /** The object a note record is from JavaScript's point of view. */
  function ToJs(n: Note): (v: JsValue)
    ensures Get(v, "id") == Number(n.id)
    ensures Get(v, "title") == Str(n.title) && Get(v, "body") == Str(n.body)
  {
    Object(map["id" := Number(n.id), "title" := Str(n.title), "body" := Str(n.body),
               "createdAt" := Str(n.createdAt), "updatedAt" := Str(n.updatedAt)])
  }

  /** `createNote(title, body)`: `id` is the fresh identifier; the clock is
      read twice, `createdNow` for the creation time and `updatedNow` for the
      update time, so the two may differ. An omitted argument (or the empty
      string) becomes "". */
  function CreateNote(id: int, createdNow: string, updatedNow: string,
                      title: Option<string>, body: Option<string>): (n: Note)
    ensures n.id == id
    ensures n.createdAt == createdNow && n.updatedAt == updatedNow
    ensures title.Some? ==> n.title == title.value
    ensures body.Some? ==> n.body == body.value
    ensures title.None? ==> n.title == ""
    ensures body.None? ==> n.body == ""
  {
    Note(id, title.GetOr(""), body.GetOr(""), createdNow, updatedNow)
  }

  /** `updateNote(note, title, body)`: new content and a refreshed update
      time; the identity and the creation time stay. */
  function UpdateNote(n: Note, title: string, body: string, now: string): (r: Note)
    ensures r.id == n.id && r.createdAt == n.createdAt
    ensures r.title == title && r.body == body && r.updatedAt == now
  {
    n.(title := title, body := body, updatedAt := now)
  }

  /** `validateNote(v)`: the `&&` chain hands back the falsy value itself
      when `v` is falsy, and otherwise a boolean. */
  function ValidateNote(v: JsValue): (r: JsValue)
    ensures !Truthy(v) ==> r == v
    ensures Truthy(v) ==> r.Bool?
    ensures Truthy(r) <==>
              && Truthy(v)
              && Get(v, "id") != Undefined
              && Get(v, "title").Str?
              && Get(v, "body").Str?
    ensures Truthy(r) ==> v.Object?
  {
    if !Truthy(v) then v
    else Bool(Get(v, "id") != Undefined && Get(v, "title").Str? && Get(v, "body").Str?)
  }

  /** Every note the factory builds, and every update of one, passes validation. */
  lemma FactoryNotesValidate(id: int, createdNow: string, updatedNow: string,
                             title: Option<string>, body: Option<string>,
                             title': string, body': string, later: string)
    ensures ValidateNote(ToJs(CreateNote(id, createdNow, updatedNow, title, body))) == Bool(true)
    ensures ValidateNote(ToJs(UpdateNote(CreateNote(id, createdNow, updatedNow, title, body), title', body', later))) == Bool(true)
  {
  }

  const NoContent: string := "No content"
  const DefaultPreviewLength: int := 50
  const Ellipsis: string := "..."

  /** `maxLength || 50`: an omitted or zero limit means 50. */
  function PreviewLimit(maxLength: Option<int>): (m: int)
    ensures m != 0
    ensures maxLength.None? || maxLength.value == 0 ==> m == DefaultPreviewLength
    ensures maxLength.Some? && maxLength.value != 0 ==> m == maxLength.value
  {
    if maxLength.None? || maxLength.value == 0 then DefaultPreviewLength else maxLength.value
  }

  /** `getPreview(body, maxLength)`: "No content" for an absent or empty
      body, otherwise the first line, cut to `maxLength - 3` characters and
      followed by "..." when it is longer than `maxLength`. */
  function GetPreview(body: Option<string>, maxLength: Option<int>): (r: string)
    ensures body.None? || body.value == "" ==> r == NoContent
    ensures body.Some? && body.value != "" ==>
              var m := PreviewLimit(maxLength);
              var line := FirstLine(body.value);
              && '\n' !in r
              && (|line| <= m ==> r == line && r <= body.value)
              && (|line| > m ==>
                    && |r| >= |Ellipsis|
                    && r[|r| - |Ellipsis|..] == Ellipsis
                    && r[..|r| - |Ellipsis|] <= line
                    && (m >= |Ellipsis| ==> |r| == m)
                    && (m < |Ellipsis| ==> r == Ellipsis))
  {
    if body.None? || body.value == "" then NoContent
    else
      var m := PreviewLimit(maxLength);
      var line := FirstLine(body.value);
      if |line| <= m then line
      else Substring(line, 0, m - 3) + Ellipsis
  }

  /** A preview of a non-empty body is a prefix of that body, possibly
      followed by the ellipsis, and is never longer than the limit (or than
      the ellipsis, for limits below 3). */
  lemma {:induction false} PreviewIsPrefix(body: string, maxLength: Option<int>)
    requires body != ""
    ensures var r := GetPreview(Some(body), maxLength);
            var m := PreviewLimit(maxLength);
            && (r <= body || (r[..|r| - |Ellipsis|] <= body && r[|r| - |Ellipsis|..] == Ellipsis))
            && |r| <= if m < |Ellipsis| then |Ellipsis| else m
  {
    var r := GetPreview(Some(body), maxLength);
    var line := FirstLine(body);
    var m := PreviewLimit(maxLength);
    if |line| > m {
      assert r[..|r| - |Ellipsis|] <= line;
      assert line <= body;
    }
  }

  /** An omitted or zero `maxLength` behaves exactly like 50. */
  lemma PreviewDefaultLimit(body: Option<string>)
    ensures GetPreview(body, None) == GetPreview(body, Some(DefaultPreviewLength))
    ensures GetPreview(body, Some(0)) == GetPreview(body, Some(DefaultPreviewLength))
  {
  }

  /** A two-line body previews as its first line. */
  lemma PreviewFirstLineExample()
    ensures GetPreview(Some("line one\nline two"), Some(50)) == "line one"
  {
    FirstLineUnique("line one\nline two", "line one");
  }

  /** A 100-character line cut at 10 is 10 characters ending in the ellipsis. */
  lemma PreviewTruncatedExample()
    ensures var r := GetPreview(Some(seq(100, _ => 'a')), Some(10));
            |r| == 10 && r[7..] == Ellipsis
  {
    var long := seq(100, _ => 'a');
    assert '\n' !in long;
    FirstLineUnique(long, long);
  }
}
