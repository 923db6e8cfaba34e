/** The texts the upload handler derives from a request: the file extension, the
    storage path, the raw-content url, the data-url payload, and the label of the
    semester. */
module Derive {
  import opened Optional
  import opened Text
  import opened Json

  /** Where uploaded files go, and where the index of uploads lives. */
  const UploadDir: string := "data/survey-scores/"
  const IndexPath: string := "data/survey-scores.json"
  const RawHost: string := "https://raw.githubusercontent.com/"
  const DefaultExtension: string := "pdf"

  /** `fileName.split('.').pop() || 'pdf'`. */
  function Extension(fileName: string): (ext: string)
    ensures ext != [] && '.' !in ext
    ensures fileName == [] || fileName[|fileName| - 1] == '.' ==> ext == DefaultExtension
  {
    var last := LastPiece(fileName, '.');
    if last == [] then DefaultExtension else last
  }

  /** The path of an upload stamped `ts`: `data/survey-scores/<ts>.<ext>`. */
  function UploadPath(ts: nat, ext: string): (path: string)
    ensures |path| > |UploadDir| && path[..|UploadDir|] == UploadDir
  {
    UploadDir + Decimal(ts) + "." + ext
  }

  /** The raw-content url of `path` on `branch` of `owner/repo`. */
  function RawUrl(owner: string, repo: string, branch: string, path: string): (url: string)
    ensures |url| >= |path| && url[|url| - |path|..] == path
    ensures |url| > |RawHost| && url[..|RawHost|] == RawHost
  {
    RawHost + owner + "/" + repo + "/" + branch + "/" + path
  }

  /** `file.split(',')[1]`: the text between the first and the second comma of a
      data url; `None` (`undefined`) when it has no comma. */
  function Payload(file: string): (r: Option<string>)
    ensures r.None? <==> ',' !in file
    ensures r.Some? ==> ',' !in r.value
  {
    SecondPieceDefined(file, ',');
    SecondPiece(file, ',')
  }

  /** What `typeMap[key]` yields for a property key: one of the four own labels, a
      method inherited from `Object.prototype`, `Object.prototype` itself (through
      `__proto__`), or `undefined`. */
  datatype TableValue = Label(text: string) | InheritedMethod | InheritedPrototype | Undefined

  /** The methods every plain object inherits from `Object.prototype`. */
  const PrototypeMethods: seq<string> := [
    "constructor", "hasOwnProperty", "isPrototypeOf", "propertyIsEnumerable",
    "toLocaleString", "toString", "valueOf",
    "__defineGetter__", "__defineSetter__", "__lookupGetter__", "__lookupSetter__"
  ]

  /** Whether `key` is one of `names`, one name at a time. */
  function Listed(names: seq<string>, key: string): bool {
    names != [] && (names[0] == key || Listed(names[1..], key))
  }

  lemma {:induction false} ListedIn(names: seq<string>, key: string)
    ensures Listed(names, key) <==> key in names
  {
    if names != [] {
      ListedIn(names[1..], key);
      assert names == [names[0]] + names[1..];
    }
  }

  /** The four labels the table holds. */
  const TableLabels: set<string> := {"Giữa HK1", "Cuối HK1", "Giữa HK2", "Cuối HK2"}

  function TypeMap(key: string): TableValue {
    if key == "mid1" then Label("Giữa HK1")
    else if key == "final1" then Label("Cuối HK1")
    else if key == "mid2" then Label("Giữa HK2")
    else if key == "final2" then Label("Cuối HK2")
    else if key == "__proto__" then InheritedPrototype
    else if Listed(PrototypeMethods, key) then InheritedMethod
    else Undefined
  }

  /** Whether turning `v` into a property key throws a `TypeError`. An object with an
      own `toString` member has no callable `toString` (a parsed member is data, never
      a function), and the inherited `valueOf` gives back the object itself, so no
      primitive is found. A list converts each of its elements, at any depth. */
  predicate KeyThrows(v: Json)
    decreases v
  {
    match v
    case JObj(fields) => HasKey(fields, "toString")
    case JArr(items) => exists i :: 0 <= i < |items| && KeyThrows(items[i])
    case _ => false
  }

  /** `String(v)`, the property key a member access with `v` uses, when that key can
      name something in the table and `KeyThrows(v)` does not hold. `None` stands for
      the keys that cannot: the text of a number, `[object Object]`, and a list of two
      or more elements (which contains a comma). Inside a list, `null` becomes the
      empty string. */
  function KeyText(v: Json, inList: bool): Option<string>
    decreases v
  {
    match v
    case JStr(s) => Some(s)
    case JBool(b) => Some(if b then "true" else "false")
    case JNull => Some(if inList then "" else "null")
    case JArr(items) =>
      if |items| == 0 then Some("")
      else if |items| == 1 then KeyText(items[0], true)
      else None
    case _ => None
  }

  function LabelOf(semester: Json): TableValue {
    match KeyText(semester, false)
    case None => Undefined
    case Some(k) => TypeMap(k)
  }

  /** `typeMap[semester] || semester` as it ends up in the index, for a semester whose
      key conversion does not throw: `None` when the value is a function, which
      `JSON.stringify` leaves out; `Object.prototype` prints as `{}`. */
  function SemesterText(semester: Json): (r: Option<Json>)
    ensures r == None || r == Some(semester) || r == Some(JObj([]))
         || (r.value.JStr? && r.value.s in TableLabels)
    ensures r.Some? && WellFormed(semester) ==> WellFormed(r.value)
  {
    match LabelOf(semester)
    case Label(t) => Some(JStr(t))
    case InheritedMethod => None
    case InheritedPrototype => Some(JObj([]))
    case Undefined => Some(semester)
  }

  /** The members of an entry, in the order they are written; `semesterText` is left
      out when it has no value (`JSON.stringify` drops a member whose value is a function). */
  function EntryFields(id: string, year: Json, semester: Json, semesterText: Option<Json>,
                       fileName: string, url: string, uploadedAt: string): seq<Field> {
    match semesterText
    case Some(t) =>
      [Field("id", JStr(id)), Field("year", year), Field("semester", semester), Field("semesterText", t),
       Field("fileName", JStr(fileName)), Field("url", JStr(url)), Field("uploadedAt", JStr(uploadedAt))]
    case None =>
      [Field("id", JStr(id)), Field("year", year), Field("semester", semester),
       Field("fileName", JStr(fileName)), Field("url", JStr(url)), Field("uploadedAt", JStr(uploadedAt))]
  }

  /** The entry appended to the index for an upload stamped `ts`. */
  function Entry(ts: nat, year: Json, semester: Json, fileName: string, url: string, uploadedAt: string): Json {
    JObj(EntryFields(Decimal(ts), year, semester, SemesterText(semester), fileName, url, uploadedAt))
  }
}
