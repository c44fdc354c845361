/** Where execution results go and what is read back: inline in the
    execution's row up to 1024 bytes, else in blob storage
    (shared/execution_logger.py, shared/blob_storage.py,
    shared/repositories/executions.py, shared/handlers/executions_handlers.py).

    One execution is followed; its blobs are told apart by their extension. */
module ResultPlacement {
  import opened Wrappers
  import opened Strings

  /** A result is a dict or list (`Doc`) or a string. `Scalar` is any other
      value that json.loads can give. */
  datatype Value = Doc(code: nat) | Text(s: string) | Scalar(code: nat)

  type ExecutionResult = v: Value | !v.Scalar? witness Text("")

  datatype Ext = Json | Html | Txt

  const THRESHOLD: nat := 1024

  /** json.dumps, json.dumps(indent=2), json.loads (None: not JSON), and which
      documents and scalars Python takes for false. */
  datatype Env = Env(dumps: nat -> string, pretty: nat -> string, loads: string -> Option<Value>,
                     emptyDoc: nat -> bool, falseScalar: nat -> bool)

  ghost predicate Good(env: Env) {
    && (forall c :: env.loads(env.dumps(c)) == env.loads(env.pretty(c)) == Some(Doc(c)))
    && (forall c :: env.dumps(c) != "")
    && (forall c :: env.emptyDoc(c) ==> Utf8Size(env.dumps(c)) <= THRESHOLD)
  }

  function Utf8Size(s: string): nat {
    if s == "" then 0
    else
      var n := s[0] as int;
      (if n < 0x80 then 1 else if n < 0x800 then 2 else if n < 0x10000 then 3 else 4) + Utf8Size(s[1..])
  }

  /** The UTF-8 form of one character, section 3 of RFC 3629. */
  function Utf8(c: char): (bytes: seq<int>)
    ensures bytes != [] && forall b :: b in bytes ==> 0 <= b < 256
  {
    var n := c as int;
    if n < 0x80 then [n]
    else if n < 0x800 then [0xC0 + n / 0x40, 0x80 + n % 0x40]
    else if n < 0x10000 then [0xE0 + n / 0x1000, 0x80 + n / 0x40 % 0x40, 0x80 + n % 0x40]
    else [0xF0 + n / 0x40000, 0x80 + n / 0x1000 % 0x40, 0x80 + n / 0x40 % 0x40, 0x80 + n % 0x40]
  }

  function Encoded(s: string): seq<int> {
    if s == "" then [] else Utf8(s[0]) + Encoded(s[1..])
  }

  /** The size is that of the encoded text. */
  lemma {:induction false} SizeIsEncodedLength(s: string)
    ensures Utf8Size(s) == |Encoded(s)|
  {
    if s != "" {
      SizeIsEncodedLength(s[1..]);
    }
  }

  /** The first character that a sequence of bytes begins with. */
  function FirstCode(bytes: seq<int>): int {
    if |bytes| >= 1 && bytes[0] < 0x80 then bytes[0]
    else if |bytes| >= 2 && bytes[0] < 0xE0 then (bytes[0] - 0xC0) * 0x40 + bytes[1] - 0x80
    else if |bytes| >= 3 && bytes[0] < 0xF0 then
      (bytes[0] - 0xE0) * 0x1000 + (bytes[1] - 0x80) * 0x40 + bytes[2] - 0x80
    else if |bytes| >= 4 then
      (bytes[0] - 0xF0) * 0x40000 + (bytes[1] - 0x80) * 0x1000 + (bytes[2] - 0x80) * 0x40 + bytes[3] - 0x80
    else 0
  }

  lemma SixBits(n: nat)
    ensures n == n / 0x40 * 0x40 + n % 0x40 && n / 0x40 / 0x40 == n / 0x1000 && n / 0x1000 / 0x40 == n / 0x40000
  {
  }

  lemma Utf8IsReadable(c: char, rest: seq<int>)
    ensures FirstCode(Utf8(c) + rest) == c as int
  {
    var n := c as int;
    SixBits(n);
    SixBits(n / 0x40);
    SixBits(n / 0x1000);
    var bytes := Utf8(c) + rest;
    assert forall i :: 0 <= i < |Utf8(c)| ==> bytes[i] == Utf8(c)[i];
  }

  /** And the encoding loses nothing: different texts have different bytes. */
  lemma {:induction false} EncodedIsInjective(s: string, t: string)
    requires Encoded(s) == Encoded(t)
    ensures s == t
  {
    if s != "" && t != "" {
      Utf8IsReadable(s[0], Encoded(s[1..]));
      Utf8IsReadable(t[0], Encoded(t[1..]));
      assert s[0] == t[0];
      assert Encoded(s[1..]) == Encoded(s)[|Utf8(s[0])|..] == Encoded(t[1..]);
      EncodedIsInjective(s[1..], t[1..]);
      assert s == [s[0]] + s[1..] && t == [t[0]] + t[1..];
    }
  }

  predicate IsTrue(env: Env, v: Value) {
    match v
    case Doc(c) => !env.emptyDoc(c)
    case Text(s) => s != ""
    case Scalar(c) => !env.falseScalar(c)
  }

  // ------------------------------------------------------- blob storage

  /** The extension upload_result picks. */
  function ExtOf(v: ExecutionResult): Ext
  {
    match v
    case Doc(_) => Json
    case Text(s) => if Trim(s) != "" && Trim(s)[0] == '<' && '>' in s then Html else Txt
  }

  function Content(env: Env, v: ExecutionResult): string
  {
    match v
    case Doc(c) => env.pretty(c)
    case Text(s) => s
  }

  type Blobs = map<Ext, string>

  function Uploaded(env: Env, blobs: Blobs, v: ExecutionResult): Blobs
  {
    blobs[ExtOf(v) := Content(env, v)]
  }

  /** One round of get_result's loop: a blob that is missing or does not
      parse is passed over. */
  function Parsed(env: Env, blobs: Blobs, ext: Ext): Option<Value> {
    if ext !in blobs then None
    else if ext == Json then env.loads(blobs[ext])
    else Some(Text(blobs[ext]))
  }

  function Downloaded(env: Env, blobs: Blobs): Option<Value> {
    if Parsed(env, blobs, Json).Some? then Parsed(env, blobs, Json)
    else if Parsed(env, blobs, Html).Some? then Parsed(env, blobs, Html)
    else Parsed(env, blobs, Txt)
  }

  class BlobStorageService {
    var blobs: Blobs

    constructor ()
      ensures blobs == map[]
    {
      blobs := map[];
    }

    method UploadResult(env: Env, result: ExecutionResult)
      modifies this
      ensures blobs == Uploaded(env, old(blobs), result)
      ensures result.Doc? ==> blobs == old(blobs)[Json := env.pretty(result.code)]
      ensures result.Text? ==> blobs == old(blobs)[Html := result.s] || blobs == old(blobs)[Txt := result.s]
    {
      match result {
        case Doc(c) =>
          blobs := blobs[Json := env.pretty(c)];
        case Text(s) =>
          var stripped := Trim(s);
          if stripped != "" && stripped[0] == '<' && '>' in s {
            blobs := blobs[Html := s];
          } else {
            blobs := blobs[Txt := s];
          }
      }
    }

    method GetResult(env: Env) returns (r: Option<Value>)
      ensures r == Downloaded(env, blobs)
    {
      var exts := [Json, Html, Txt];
      for i := 0 to 3
        invariant forall j :: 0 <= j < i ==> Parsed(env, blobs, exts[j]).None?
      {
        if exts[i] !in blobs {
          continue;
        }
        var blobData := blobs[exts[i]];
        if exts[i] == Json {
          var loaded := env.loads(blobData);
          if loaded.Some? {
            return loaded;
          }
        } else {
          assert Parsed(env, blobs, exts[0]).None? && (i == 2 ==> Parsed(env, blobs, exts[1]).None?);
          return Some(Text(blobData));
        }
      }
      assert Parsed(env, blobs, exts[0]).None? && Parsed(env, blobs, exts[1]).None?;
      assert Parsed(env, blobs, exts[2]).None?;
      return None;
    }
  }

  /** A text counts as HTML exactly when, after blanks, it begins with '<' and a
      '>' comes somewhere. */
  lemma HtmlIff(lead: string, rest: string)
    requires forall c :: c in lead ==> IsSpace(c)
    requires rest == "" || !IsSpace(rest[0])
    ensures ExtOf(Text(lead + rest)) == Html <==> rest != "" && rest[0] == '<' && '>' in rest
    ensures ExtOf(Text(lead + rest)) == Html || ExtOf(Text(lead + rest)) == Txt
  {
    TrimStart(lead, rest);
    assert '>' in lead + rest <==> '>' in rest;
  }

  lemma {:induction false} TrimStart(lead: string, rest: string)
    requires forall c :: c in lead ==> IsSpace(c)
    requires rest == "" || !IsSpace(rest[0])
    ensures TrimLeft(lead + rest) == rest
    ensures Trim(lead + rest) == "" <==> rest == ""
    ensures rest != "" ==> Trim(lead + rest)[0] == rest[0]
  {
    if lead != "" {
      TrimStart(lead[1..], rest);
      assert (lead + rest)[1..] == lead[1..] + rest && lead[0] in lead;
    } else {
      assert lead + rest == rest;
    }
    if rest != "" {
      TrimRightKeepsFirst(rest);
    }
  }

  lemma {:induction false} TrimRightKeepsFirst(s: string)
    requires s != "" && !IsSpace(s[0])
    ensures TrimRight(s) != "" && TrimRight(s)[0] == s[0]
  {
    if IsSpace(s[|s| - 1]) {
      TrimRightKeepsFirst(s[..|s| - 1]);
    }
  }

  // ------------------------------------------------- any run of uploads

  function AfterUploads(env: Env, uploads: seq<ExecutionResult>): Blobs
  {
    if uploads == [] then map[]
    else
      var n := |uploads| - 1;
      Uploaded(env, AfterUploads(env, uploads[..n]), uploads[n])
  }

  /** The latest upload of one format. */
  function Latest(uploads: seq<ExecutionResult>, ext: Ext): Option<ExecutionResult>
  {
    if uploads == [] then None
    else
      var n := |uploads| - 1;
      if ExtOf(uploads[n]) == ext then Some(uploads[n]) else Latest(uploads[..n], ext)
  }

  lemma {:induction false} BlobIsLatest(env: Env, uploads: seq<ExecutionResult>, ext: Ext)
    requires Good(env)
    ensures Parsed(env, AfterUploads(env, uploads), ext) == Latest(uploads, ext)
  {
    if uploads != [] {
      var n := |uploads| - 1;
      BlobIsLatest(env, uploads[..n], ext);
    }
  }

  /** After any run of uploads: the latest JSON one if there is one, else the
      latest HTML, else the latest text. */
  lemma DownloadIsByPriority(env: Env, uploads: seq<ExecutionResult>)
    requires Good(env)
    ensures Downloaded(env, AfterUploads(env, uploads)) ==
      if Latest(uploads, Json).Some? then Latest(uploads, Json)
      else if Latest(uploads, Html).Some? then Latest(uploads, Html)
      else Latest(uploads, Txt)
  {
    BlobIsLatest(env, uploads, Json);
    BlobIsLatest(env, uploads, Html);
    BlobIsLatest(env, uploads, Txt);
  }

  /** Whatever the blobs hold: a JSON blob that does not parse is passed over. */
  lemma UnreadableJsonIsPassedOver(env: Env, blobs: Blobs)
    requires Json in blobs ==> env.loads(blobs[Json]).None?
    ensures Downloaded(env, blobs) ==
      if Html in blobs then Some(Text(blobs[Html])) else if Txt in blobs then Some(Text(blobs[Txt])) else None
  {
  }

  function Priority(e: Ext): nat {
    match e
    case Json => 2
    case Html => 1
    case Txt => 0
  }

  lemma {:induction false} LatestIff(uploads: seq<ExecutionResult>, ext: Ext)
    ensures Latest(uploads, ext).Some? <==> exists u :: u in uploads && ExtOf(u) == ext
    ensures Latest(uploads, ext).Some? ==> ExtOf(Latest(uploads, ext).value) == ext
  {
    if uploads != [] {
      var n := |uploads| - 1;
      assert uploads == uploads[..n] + [uploads[n]];
      LatestIff(uploads[..n], ext);
    }
  }

  /** The last upload is what is read back exactly when no earlier one had a
      format of higher priority. */
  lemma DownloadIsLastIff(env: Env, uploads: seq<ExecutionResult>)
    requires Good(env) && uploads != []
    ensures var last := uploads[|uploads| - 1];
      Downloaded(env, AfterUploads(env, uploads)) == Some(last) <==>
        forall u :: u in uploads ==> Priority(ExtOf(u)) <= Priority(ExtOf(last))
  {
    var last := uploads[|uploads| - 1];
    assert last in uploads;
    DownloadIsByPriority(env, uploads);
    LatestIff(uploads, Json);
    LatestIff(uploads, Html);
    LatestIff(uploads, Txt);
    assert Latest(uploads, ExtOf(last)) == Some(last);
  }

  // --------------------------------------------- the row, and the reader

  /** The two columns of the execution's row. */
  datatype Row = Row(inBlob: bool, inline: Option<string>)

  datatype Store = Store(row: Row, blobs: Blobs)

  const FRESH: Store := Store(Row(false, None), map[])

  /** The text whose size decides, and which goes into the row. */
  function RowText(env: Env, v: ExecutionResult): string {
    match v
    case Doc(c) => env.dumps(c)
    case Text(s) => s
  }

  predicate IsLarge(env: Env, v: ExecutionResult) {
    Utf8Size(RowText(env, v)) > THRESHOLD
  }

  /** update_execution of the logger and, inside it, of the repository. The
      repository writes the text column only for a result that is there, is
      not in a blob, and is true; otherwise the column keeps its old text. */
  function Updated(env: Env, s: Store, result: Option<ExecutionResult>): Store {
    match result
    case None => s.(row := s.row.(inBlob := false))
    case Some(v) =>
      if IsLarge(env, v) then Store(s.row.(inBlob := true), Uploaded(env, s.blobs, v))
      else if IsTrue(env, v) then s.(row := Row(false, Some(RowText(env, v))))
      else s.(row := s.row.(inBlob := false))
  }

  class ExecutionLogger {
    var row: Row
    const blobService: BlobStorageService

    constructor ()
      ensures Store(row, blobService.blobs) == FRESH && fresh(blobService)
    {
      row := Row(false, None);
      blobService := new BlobStorageService();
    }

    /** The repository's part. */
    method UpdateRow(env: Env, result: Option<ExecutionResult>, resultInBlob: bool)
      requires resultInBlob ==> result.None?
      modifies this
      ensures row == Row(resultInBlob,
        if result.Some? && IsTrue(env, result.value) then Some(RowText(env, result.value)) else old(row.inline))
    {
      row := row.(inBlob := resultInBlob);
      if result.Some? && IsTrue(env, result.value) && !resultInBlob {
        row := row.(inline := Some(RowText(env, result.value)));
      }
    }

    /** A large result goes to blob storage and leaves the row's text alone;
        any other goes to the row, if it is true, and leaves blob storage
        alone. */
    method UpdateExecution(env: Env, result: Option<ExecutionResult>)
      modifies this, blobService
      ensures result == Some(Text("")) ==> row.inline == old(row.inline)
      ensures result.Some? && result.value.Doc? && env.emptyDoc(result.value.code) ==> row.inline == old(row.inline)
      ensures Store(row, blobService.blobs) == Updated(env, Store(old(row), old(blobService.blobs)), result)
      ensures row.inBlob <==> result.Some? && IsLarge(env, result.value)
      ensures row.inBlob && result.value.Doc? ==> |Encoded(env.dumps(result.value.code))| > 1024
      ensures row.inBlob && result.value.Text? ==> |Encoded(result.value.s)| > 1024
      ensures !row.inBlob && result.Some? && result.value.Doc? ==> |Encoded(env.dumps(result.value.code))| <= 1024
      ensures !row.inBlob && result.Some? && result.value.Text? ==> |Encoded(result.value.s)| <= 1024
      ensures row.inBlob ==> row.inline == old(row.inline) && ExtOf(result.value) in blobService.blobs
      ensures !row.inBlob ==> blobService.blobs == old(blobService.blobs)
      ensures !row.inBlob ==>
        row.inline == if result.Some? && IsTrue(env, result.value) then Some(RowText(env, result.value))
                      else old(row.inline)
    {
      var inline := result;
      var resultInBlob := false;
      if result.Some? {
        SizeIsEncodedLength(RowText(env, result.value));
      }
      if result.Some? {
        var resultSize := Utf8Size(RowText(env, result.value));
        if resultSize > THRESHOLD {
          blobService.UploadResult(env, result.value);
          resultInBlob := true;
          inline := None;
        }
      }
      UpdateRow(env, inline, resultInBlob);
    }
  }

  /** The result a model read from the row carries. */
  function InlineResult(env: Env, row: Row): Option<Value> {
    if row.inBlob || row.inline.None? || row.inline.value == "" then None
    else if env.loads(row.inline.value).Some? then env.loads(row.inline.value)
    else Some(Text(row.inline.value))
  }

  /** What the execution handler shows: the row's result if it is true, else
      the blob's. */
  function Shown(env: Env, s: Store): Option<Value> {
    var inline := InlineResult(env, s.row);
    if inline.Some? && IsTrue(env, inline.value) then inline else Downloaded(env, s.blobs)
  }

  function AfterUpdates(env: Env, updates: seq<Option<ExecutionResult>>): Store {
    if updates == [] then FRESH
    else
      var n := |updates| - 1;
      Updated(env, AfterUpdates(env, updates[..n]), updates[n])
  }

  /** The results of a run that went to blob storage, in order. */
  function LargeOnes(env: Env, updates: seq<Option<ExecutionResult>>): seq<ExecutionResult> {
    if updates == [] then []
    else
      var n := |updates| - 1;
      LargeOnes(env, updates[..n]) +
        if updates[n].Some? && IsLarge(env, updates[n].value) then [updates[n].value] else []
  }

  lemma OneMoreUpload(env: Env, uploads: seq<ExecutionResult>, v: ExecutionResult)
    ensures AfterUploads(env, uploads + [v]) == Uploaded(env, AfterUploads(env, uploads), v)
  {
    assert (uploads + [v])[..|uploads|] == uploads;
  }

  lemma {:induction false} BlobsHoldLargeOnes(env: Env, updates: seq<Option<ExecutionResult>>)
    ensures AfterUpdates(env, updates).blobs == AfterUploads(env, LargeOnes(env, updates))
    ensures forall u :: u in LargeOnes(env, updates) ==> IsLarge(env, u)
  {
    if updates != [] {
      var n := |updates| - 1;
      BlobsHoldLargeOnes(env, updates[..n]);
      var before := LargeOnes(env, updates[..n]);
      if updates[n].Some? && IsLarge(env, updates[n].value) {
        assert LargeOnes(env, updates) == before + [updates[n].value];
        OneMoreUpload(env, before, updates[n].value);
      } else {
        assert LargeOnes(env, updates) == before;
      }
    }
  }

  /** Whether the reader sees a result right after its update, exactly.
      A large one: unless an earlier large one had a format of higher
      priority. A small document: unless it is empty. A small string: unless
      it is empty, or is itself JSON for something else. */
  predicate IsSeen(env: Env, earlier: seq<ExecutionResult>, v: ExecutionResult) {
    if IsLarge(env, v) then
      forall u :: u in earlier ==> Priority(ExtOf(u)) <= Priority(ExtOf(v))
    else
      IsTrue(env, v) && (v.Text? && env.loads(v.s).Some? ==> env.loads(v.s) == Some(v))
  }

  lemma LargeIsShownIff(env: Env, before: Store, earlier: seq<ExecutionResult>, v: ExecutionResult)
    requires Good(env) && before.blobs == AfterUploads(env, earlier) && IsLarge(env, v)
    ensures Shown(env, Updated(env, before, Some(v))) == Some(v) <==> IsSeen(env, earlier, v)
  {
    OneMoreUpload(env, earlier, v);
    DownloadIsLastIff(env, earlier + [v]);
    assert (forall u :: u in earlier + [v] ==> Priority(ExtOf(u)) <= Priority(ExtOf(v))) <==> IsSeen(env, earlier, v);
  }

  lemma SmallIsShownIff(env: Env, before: Store, earlier: seq<ExecutionResult>, v: ExecutionResult)
    requires Good(env) && before.blobs == AfterUploads(env, earlier) && !IsLarge(env, v)
    requires forall u :: u in earlier ==> IsLarge(env, u)
    ensures Shown(env, Updated(env, before, Some(v))) == Some(v) <==> IsSeen(env, earlier, v)
  {
    SmallIsNotInBlob(env, earlier, v);
  }

  ghost predicate HasResult(updates: seq<Option<ExecutionResult>>) {
    exists i :: 0 <= i < |updates| && updates[i].Some?
  }

  /** Where the last result of a run is. */
  function LastResultAt(updates: seq<Option<ExecutionResult>>): (p: nat)
    requires HasResult(updates)
    ensures p < |updates| && updates[p].Some?
    ensures forall i :: p < i < |updates| ==> updates[i].None?
  {
    var n := |updates| - 1;
    if updates[n].Some? then n else LastResultAt(updates[..n])
  }

  /** The text in the row: that of the latest result that is small and true. */
  function LastInline(env: Env, updates: seq<Option<ExecutionResult>>): Option<string> {
    if updates == [] then None
    else
      var n := |updates| - 1;
      if updates[n].Some? && !IsLarge(env, updates[n].value) && IsTrue(env, updates[n].value)
      then Some(RowText(env, updates[n].value))
      else LastInline(env, updates[..n])
  }

  /** What a reader makes of the row's text, when the row does not point to
      blob storage: None if there is nothing true in it. */
  function ReadInline(env: Env, text: Option<string>): Option<Value> {
    var v := InlineResult(env, Row(false, text));
    if v.Some? && IsTrue(env, v.value) then v else None
  }

  lemma {:induction false} RowHoldsLastInline(env: Env, updates: seq<Option<ExecutionResult>>)
    ensures AfterUpdates(env, updates).row.inline == LastInline(env, updates)
    ensures AfterUpdates(env, updates).row.inBlob <==>
      updates != [] && updates[|updates| - 1].Some? && IsLarge(env, updates[|updates| - 1].value)
  {
    if updates != [] {
      RowHoldsLastInline(env, updates[..|updates| - 1]);
    }
  }

  /** Updates without a result leave blob storage and the row's text alone. */
  lemma {:induction false} IdleUpdates(env: Env, updates: seq<Option<ExecutionResult>>, p: nat)
    requires p < |updates| && forall i :: p < i < |updates| ==> updates[i].None?
    ensures LargeOnes(env, updates) == LargeOnes(env, updates[..p + 1])
    ensures LastInline(env, updates) == LastInline(env, updates[..p + 1])
  {
    var n := |updates| - 1;
    if p < n {
      IdleUpdates(env, updates[..n], p);
      assert updates[..n][..p + 1] == updates[..p + 1];
    } else {
      assert updates[..p + 1] == updates;
    }
  }

  /** Which last result of a run the reader sees, exactly. Right after it, as
      above. After a further update without a result the row no longer points
      to blob storage: then a large result is seen only if the row's text, which
      an earlier small result has left, is not read as something else. */
  predicate IsSeenInRun(env: Env, earlier: seq<Option<ExecutionResult>>, v: ExecutionResult, idle: bool) {
    if idle && IsLarge(env, v) && ReadInline(env, LastInline(env, earlier)).Some?
    then ReadInline(env, LastInline(env, earlier)) == Some(v)
    else IsSeen(env, LargeOnes(env, earlier), v)
  }

  lemma LastResultIsShownIff(env: Env, updates: seq<Option<ExecutionResult>>)
    requires Good(env) && HasResult(updates)
    ensures var p := LastResultAt(updates);
      var v := updates[p].value;
      Shown(env, AfterUpdates(env, updates)) == Some(v) <==>
        IsSeenInRun(env, updates[..p], v, p < |updates| - 1)
  {
    var p := LastResultAt(updates);
    var v := updates[p].value;
    var upTo := updates[..p + 1];
    assert upTo[..p] == updates[..p];
    ShownRightAfterIff(env, updates[..p], v);
    assert upTo == updates[..p] + [Some(v)];
    IdleUpdates(env, updates, p);
    BlobsHoldLargeOnes(env, updates);
    BlobsHoldLargeOnes(env, upTo);
    RowHoldsLastInline(env, updates);
    RowHoldsLastInline(env, upTo);
    if p == |updates| - 1 {
      assert upTo == updates;
    }
  }

  lemma ShownRightAfterIff(env: Env, earlier: seq<Option<ExecutionResult>>, v: ExecutionResult)
    requires Good(env)
    ensures Shown(env, AfterUpdates(env, earlier + [Some(v)])) == Some(v) <==> IsSeen(env, LargeOnes(env, earlier), v)
  {
    assert (earlier + [Some(v)])[..|earlier|] == earlier;
    BlobsHoldLargeOnes(env, earlier);
    if IsLarge(env, v) {
      LargeIsShownIff(env, AfterUpdates(env, earlier), LargeOnes(env, earlier), v);
    } else {
      SmallIsShownIff(env, AfterUpdates(env, earlier), LargeOnes(env, earlier), v);
    }
  }

  /** An update without a result brings an old result back: a small document,
      then a large result, which is shown, then nothing. */
  lemma IdleUpdateShowsOldResult(env: Env, small: nat, large: ExecutionResult)
    requires Good(env) && !env.emptyDoc(small) && !IsLarge(env, Doc(small)) && IsLarge(env, large)
    ensures Shown(env, AfterUpdates(env, [Some(Doc(small)), Some(large)])) == Some(large)
    ensures Shown(env, AfterUpdates(env, [Some(Doc(small)), Some(large), None])) == Some(Doc(small))
  {
    var one: seq<Option<ExecutionResult>> := [Some(Doc(small))];
    var two := one + [Some(large)];
    assert two == [Some(Doc(small)), Some(large)];
    assert one[..0] == [] && LargeOnes(env, one) == [];
    ShownRightAfterIff(env, one, large);
    var three := [Some(Doc(small)), Some(large), None];
    assert three[..2] == two && two[..1] == one;
    RowHoldsLastInline(env, three);
    assert LastInline(env, one) == Some(env.dumps(small));
    assert LastInline(env, three) == LastInline(env, two) == LastInline(env, one);
  }

  /** A document uploaded earlier hides any later text. */
  lemma EarlierDocumentHidesText(env: Env, c: nat, s: string)
    requires Good(env)
    ensures Downloaded(env, AfterUploads(env, [Doc(c), Text(s)])) == Some(Doc(c))
  {
    var uploads: seq<ExecutionResult> := [Doc(c), Text(s)];
    assert uploads[..1] == [uploads[0]];
    assert Latest(uploads[..1], Json) == Some(Doc(c));
    DownloadIsByPriority(env, uploads);
  }

  /** A short text whose JSON value Python takes for false, such as 0 or {}, is
      not shown at all: the reader looks in blob storage instead. */
  lemma FalseJsonTextIsNotShown(env: Env, earlier: seq<Option<ExecutionResult>>, s: string, v: Value)
    requires Good(env) && s != "" && Utf8Size(s) <= THRESHOLD && env.loads(s) == Some(v)
    requires v == Text("") || (v.Doc? && env.emptyDoc(v.code)) || (v.Scalar? && env.falseScalar(v.code))
    ensures Shown(env, AfterUpdates(env, earlier + [Some(Text(s))])) ==
      Downloaded(env, AfterUploads(env, LargeOnes(env, earlier)))
  {
    var updates := earlier + [Some(Text(s))];
    assert updates[..|earlier|] == earlier;
    RowHoldsLastInline(env, updates);
    BlobsHoldLargeOnes(env, earlier);
  }

  /** A short text that is JSON for a document is shown as that document. */
  lemma JsonTextIsShownAsDocument(env: Env, s: string, c: nat)
    requires Good(env) && s != "" && Utf8Size(s) <= THRESHOLD && env.loads(s) == Some(Doc(c)) && !env.emptyDoc(c)
    ensures Shown(env, AfterUpdates(env, [Some(Text(s))])) == Some(Doc(c))
  {
    var updates: seq<Option<ExecutionResult>> := [Some(Text(s))];
    assert updates[..0] == [];
    RowHoldsLastInline(env, updates);
  }

  lemma SmallIsNotInBlob(env: Env, uploads: seq<ExecutionResult>, v: ExecutionResult)
    requires Good(env) && !IsLarge(env, v) && forall u :: u in uploads ==> IsLarge(env, u)
    ensures Downloaded(env, AfterUploads(env, uploads)) != Some(v)
  {
    DownloadIsByPriority(env, uploads);
    LatestIsUpload(uploads, Json);
    LatestIsUpload(uploads, Html);
    LatestIsUpload(uploads, Txt);
  }

  lemma {:induction false} LatestIsUpload(uploads: seq<ExecutionResult>, ext: Ext)
    ensures Latest(uploads, ext).Some? ==> Latest(uploads, ext).value in uploads
  {
    if uploads != [] {
      var n := |uploads| - 1;
      LatestIsUpload(uploads[..n], ext);
    }
  }
}
