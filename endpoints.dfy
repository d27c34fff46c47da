/** The two HTTP endpoints, `capture` and `capture_map`, around one browser capture
    (`_capture_one_raw`). The browser is an oracle: what the Playwright steps do with
    a given output file and search term is not modelled, only the outcome. */
module Endpoints {
  import opened Subsequences
  import opened FileNames

  /** How one capture ended.
      - `Saved`: every step inside the `try` succeeded and the screenshot was written.
      - `Raised(message)`: a step inside the `try` raised; the exception is caught there.
      - `Escaped`: an exception nothing in `_capture_one_raw` catches: one raised outside
        the `try` (creating the output directory, opening the browser context or page, or
        closing the context in `finally`), or one inside it that is not an `Exception`.
        It leaves `_capture_one_raw` and the endpoint that called it. */
  datatype Shot = Saved | Raised(message: string) | Escaped

  /** The browser seen from the endpoints. `shoot(outPath, target)` runs the whole
      capture for the search term `target`, writing to `outPath`; `resolve` is
      `Path.resolve()` on the output file. */
  datatype Browser = Browser(shoot: (string, string) -> Shot, resolve: string -> string)

  /** What a call of `_capture_one_raw` does: return `(ok, text)`, or raise. */
  datatype RawResult = Returned(ok: bool, text: string) | Uncaught

  /** One (unsanitized code, search term) entry of a request. */
  type Entry = (string, string)

  /** Body of a response. `ServerError` is the framework's answer to an exception that
      leaves a handler. */
  datatype Body =
    | ErrorBody(error: string)
    | Captured(code: string, target: string, path: string)
    | NotCaptured(code: string, target: string, error: string)
    | Batch(outputDir: string, done: seq<string>)
    | ServerError

  datatype Response = Response(status: nat, body: Body)

  const Ok: nat := 200
  const BadRequest: nat := 400
  const InternalError: nat := 500

  /** "未找到图片" ("image not found"), the error the single endpoint reports. */
  const NotFound: string := "\U{672A}\U{627E}\U{5230}\U{56FE}\U{7247}"

  /** Prefix of the failure text `_capture_one_raw` returns before the exception text. */
  const NotFoundPrefix: string := NotFound + ": "

  /** "请求体需为 [编号, 靶点名] 的列表": the body must be a [code, target] list. */
  const ListShapeError: string :=
    "\U{8BF7}\U{6C42}\U{4F53}\U{9700}\U{4E3A} [\U{7F16}\U{53F7}, \U{9776}\U{70B9}\U{540D}] \U{7684}\U{5217}\U{8868}"

  /** "请求体需为 {编号: 靶点名} 的对象": the body must be a {code: target} object. */
  const MapShapeError: string :=
    "\U{8BF7}\U{6C42}\U{4F53}\U{9700}\U{4E3A} {\U{7F16}\U{53F7}: \U{9776}\U{70B9}\U{540D}} \U{7684}\U{5BF9}\U{8C61}"

  /** `_capture_one_raw`: sanitize the code into an output path, drive the browser,
      and return `(true, resolved path)` or `(false, failure text)`, or raise. */
  function CaptureOneRaw(b: Browser, code: string, target: string): RawResult
  {
    var outPath := OutputPath(code);
    match b.shoot(outPath, target)
    case Saved => Returned(true, b.resolve(outPath))
    case Raised(e) => Returned(false, NotFoundPrefix + e)
    case Escaped => Uncaught
  }

  /** Whether the capture of `code` with search term `target` returns success. */
  predicate Succeeds(b: Browser, code: string, target: string) {
    var res := CaptureOneRaw(b, code, target);
    res.Returned? && res.ok
  }

  /** Whether the capture of `code` with search term `target` raises out of `_capture_one_raw`. */
  predicate Escapes(b: Browser, code: string, target: string) {
    CaptureOneRaw(b, code, target).Uncaught?
  }

  /** Two browsers that behave the same at one (output path, search term) point. */
  predicate AgreeAt(b1: Browser, b2: Browser, outPath: string, target: string) {
    b1.shoot(outPath, target) == b2.shoot(outPath, target) && b1.resolve(outPath) == b2.resolve(outPath)
  }

  /** A capture consults the browser at one point: its output path and search term. */
  lemma CaptureOneRawUsesOneBrowserPoint(b1: Browser, b2: Browser, code: string, target: string)
    requires AgreeAt(b1, b2, OutputPath(code), target)
    ensures CaptureOneRaw(b1, code, target) == CaptureOneRaw(b2, code, target)
  {
  }

  /** What `_capture_one_raw` does: it raises exactly when an exception escapes the
      `try`; otherwise it reports success exactly when the screenshot was saved, with
      the resolved output path, and on failure the exception text behind a fixed prefix. */
  lemma CaptureOneRawOutcome(b: Browser, code: string, target: string)
    ensures var res, shot := CaptureOneRaw(b, code, target), b.shoot(OutputPath(code), target);
      && (res.Uncaught? <==> shot == Escaped)
      && (res.Returned? ==> (res.ok <==> shot == Saved))
      && (res.Returned? && res.ok ==> res.text == b.resolve(OutputPath(code)))
      && (res.Returned? && !res.ok ==> res.text == NotFoundPrefix + shot.message)
  {
  }

  /** The code reaches the browser only through its sanitized form: two codes with
      the same sanitized name capture identically. */
  lemma CaptureOneRawSeesSanitizedCode(b: Browser, code1: string, code2: string, target: string)
    requires Sanitize(code1) == Sanitize(code2)
    ensures CaptureOneRaw(b, code1, target) == CaptureOneRaw(b, code2, target)
  {
    assert OutputPath(code1) == OutputPath(code2);
  }

  // ---------------------------------------------------------------------------
  // POST /capture

  /** `capture`: a body shorter than two elements is rejected with 400 and never
      reaches the browser; otherwise the first two elements are captured (any
      further ones are ignored). An exception escaping the capture becomes a 500;
      otherwise the code and target are echoed back unsanitized, with `path` on
      success and `error` on failure. */
  function Capture(b: Browser, item: seq<string>): (r: Response)
    ensures r.status == BadRequest <==> |item| < 2
    ensures |item| < 2 ==> r.body == ErrorBody(ListShapeError)
    ensures r.status == InternalError <==> |item| >= 2 && Escapes(b, item[0], item[1])
    ensures r.status == InternalError ==> r.body == ServerError
    ensures |item| >= 2 && !Escapes(b, item[0], item[1]) ==>
      && r.status == Ok
      && (r.body.Captured? || r.body.NotCaptured?)
      && r.body.code == item[0] && r.body.target == item[1]
      && (r.body.Captured? <==> Succeeds(b, item[0], item[1]))
    ensures r.body.Captured? ==> r.body.path == b.resolve(OutputPath(item[0]))
    ensures r.body.NotCaptured? ==> r.body.error == NotFound
  {
    if |item| < 2 then
      Response(BadRequest, ErrorBody(ListShapeError))
    else
      var (code, target) := (item[0], item[1]);
      match CaptureOneRaw(b, code, target)
      case Uncaught => Response(InternalError, ServerError)
      case Returned(ok, ret) =>
        if ok then Response(Ok, Captured(code, target, ret))
        else Response(Ok, NotCaptured(code, target, NotFound))
  }

  /** A rejected request does not depend on the browser at all: no capture is made. */
  lemma CaptureRejectsWithoutBrowser(b1: Browser, b2: Browser, item: seq<string>)
    requires |item| < 2
    ensures Capture(b1, item) == Capture(b2, item)
  {
  }

  /** Elements after the second one do not change the response. */
  lemma CaptureIgnoresExtraElements(b: Browser, item: seq<string>)
    requires |item| >= 2
    ensures Capture(b, item) == Capture(b, item[..2])
  {
  }

  /** An accepted request consults the browser at exactly one point: the output path
      of its code and its search term. */
  lemma CaptureUsesOneBrowserPoint(b1: Browser, b2: Browser, item: seq<string>)
    requires |item| >= 2 && AgreeAt(b1, b2, OutputPath(item[0]), item[1])
    ensures Capture(b1, item) == Capture(b2, item)
  {
  }

  // ---------------------------------------------------------------------------
  // POST /capture_map

  /** The keys of a mapping, in iteration order. */
  function Keys(items: seq<Entry>): (ks: seq<string>)
    ensures |ks| == |items|
    ensures forall i :: 0 <= i < |items| ==> ks[i] == items[i].0
  {
    if items == [] then [] else [items[0].0] + Keys(items[1..])
  }

  /** The `done` list of `capture_map` when no capture raises: the unsanitized keys
      whose capture succeeded, in iteration order. */
  function Done(b: Browser, items: seq<Entry>): seq<string>
  {
    if items == [] then []
    else if Succeeds(b, items[0].0, items[0].1) then [items[0].0] + Done(b, items[1..])
    else Done(b, items[1..])
  }

  /** The batch result of a concatenation is the concatenation of the batch results:
      one item's outcome never affects another's. */
  lemma {:induction false} DoneConcat(b: Browser, xs: seq<Entry>, ys: seq<Entry>)
    ensures Done(b, xs + ys) == Done(b, xs) + Done(b, ys)
  {
    if xs == [] {
      assert xs + ys == ys;
    } else {
      var zs := xs + ys;
      assert zs[0] == xs[0] && zs[1..] == xs[1..] + ys;
      DoneConcat(b, xs[1..], ys);
      if Succeeds(b, xs[0].0, xs[0].1) {
        assert Done(b, zs) == [xs[0].0] + Done(b, zs[1..]);
        assert [xs[0].0] + (Done(b, xs[1..]) + Done(b, ys)) == ([xs[0].0] + Done(b, xs[1..])) + Done(b, ys);
      } else {
        assert Done(b, zs) == Done(b, zs[1..]);
      }
    }
  }

  /** `done` is an order-preserving subsequence of the keys. */
  lemma {:induction false} DoneIsSubsequenceOfKeys(b: Browser, items: seq<Entry>)
    ensures IsSubsequence(Done(b, items), Keys(items))
  {
    if items != [] {
      DoneIsSubsequenceOfKeys(b, items[1..]);
      var d, ks := Done(b, items), Keys(items);
      assert ks[1..] == Keys(items[1..]);
      if Succeeds(b, items[0].0, items[0].1) {
        assert d[0] == ks[0] && d[1..] == Done(b, items[1..]);
      } else if d != [] {
        assert d == Done(b, items[1..]);
      }
    }
  }

  /** A key is in `done` exactly when some entry with that key was captured successfully. */
  lemma {:induction false} DoneMembership(b: Browser, items: seq<Entry>, k: string)
    ensures k in Done(b, items) <==>
      exists i :: 0 <= i < |items| && items[i].0 == k && Succeeds(b, items[i].0, items[i].1)
  {
    if items != [] {
      DoneMembership(b, items[1..], k);
      var rest := items[1..];
      if exists i :: 0 <= i < |rest| && rest[i].0 == k && Succeeds(b, rest[i].0, rest[i].1) {
        var i :| 0 <= i < |rest| && rest[i].0 == k && Succeeds(b, rest[i].0, rest[i].1);
        assert items[i + 1] == rest[i];
      }
      if exists i :: 0 <= i < |items| && items[i].0 == k && Succeeds(b, items[i].0, items[i].1) {
        var i :| 0 <= i < |items| && items[i].0 == k && Succeeds(b, items[i].0, items[i].1);
        if i > 0 {
          assert rest[i - 1] == items[i];
        }
      }
    }
  }

  /** An entry whose capture returns failure is simply skipped: the entries before and
      after it contribute exactly what they would without it. */
  lemma FailedEntrySkipped(b: Browser, items: seq<Entry>, i: nat)
    requires i < |items| && !Succeeds(b, items[i].0, items[i].1) && !Escapes(b, items[i].0, items[i].1)
    ensures Done(b, items) == Done(b, items[..i]) + Done(b, items[i + 1..])
  {
    assert items == items[..i] + ([items[i]] + items[i + 1..]);
    DoneConcat(b, items[..i], [items[i]] + items[i + 1..]);
    assert ([items[i]] + items[i + 1..])[1..] == items[i + 1..];
  }

  /** The batch consults the browser only at the (output path, search term) points of
      its own entries. */
  lemma {:induction false} DoneUsesEntryPoints(b1: Browser, b2: Browser, items: seq<Entry>)
    requires forall i :: 0 <= i < |items| ==> AgreeAt(b1, b2, OutputPath(items[i].0), items[i].1)
    ensures Done(b1, items) == Done(b2, items)
  {
    if items != [] {
      CaptureOneRawUsesOneBrowserPoint(b1, b2, items[0].0, items[0].1);
      assert forall i :: 0 <= i < |items[1..]| ==> items[1..][i] == items[i + 1];
      DoneUsesEntryPoints(b1, b2, items[1..]);
    }
  }

  /** Extending the batch prefix by one entry extends `done` by that entry's key exactly
      when its capture succeeds. */
  lemma DoneStep(b: Browser, items: seq<Entry>, i: nat)
    requires i < |items|
    ensures Done(b, items[..i + 1]) ==
      Done(b, items[..i]) + (if Succeeds(b, items[i].0, items[i].1) then [items[i].0] else [])
  {
    assert items[..i + 1] == items[..i] + [items[i]];
    DoneConcat(b, items[..i], [items[i]]);
    assert [items[i]][1..] == [];
  }

  /** The index of the first entry whose capture raises, or `|items|` if none does. */
  function FirstEscape(b: Browser, items: seq<Entry>): (k: nat)
    ensures k <= |items|
    ensures k < |items| ==> Escapes(b, items[k].0, items[k].1)
  {
    if items == [] then 0
    else if Escapes(b, items[0].0, items[0].1) then 0
    else 1 + FirstEscape(b, items[1..])
  }

  /** No entry before the first escape raises. */
  lemma {:induction false} FirstEscapeIsFirst(b: Browser, items: seq<Entry>, j: nat)
    requires j < FirstEscape(b, items)
    ensures !Escapes(b, items[j].0, items[j].1)
  {
    if j > 0 {
      assert items[j] == items[1..][j - 1];
      FirstEscapeIsFirst(b, items[1..], j - 1);
    }
  }

  /** Scanning forward from a point no later than the first escape: an entry that
      raises is the first escape, and one that returns lies before it. */
  lemma FirstEscapeScan(b: Browser, items: seq<Entry>, i: nat)
    requires i < |items| && i <= FirstEscape(b, items)
    ensures Escapes(b, items[i].0, items[i].1) ==> FirstEscape(b, items) == i
    ensures !Escapes(b, items[i].0, items[i].1) ==> i < FirstEscape(b, items)
  {
    if i < FirstEscape(b, items) {
      FirstEscapeIsFirst(b, items, i);
    }
  }

  /** Entries after the first escaping one do not affect where the batch stops. */
  lemma {:induction false} FirstEscapeIgnoresLaterEntries(b: Browser, items: seq<Entry>, more: seq<Entry>)
    requires FirstEscape(b, items) < |items|
    ensures FirstEscape(b, items + more) == FirstEscape(b, items)
  {
    var zs := items + more;
    assert zs[0] == items[0];
    if !Escapes(b, items[0].0, items[0].1) {
      assert zs[1..] == items[1..] + more;
      FirstEscapeIgnoresLaterEntries(b, items[1..], more);
    }
  }

  /** `capture_map`: an empty mapping is rejected with 400 before any capture. Otherwise
      the entries are captured one by one in iteration order. A capture that returns
      failure is left out of `done` and the loop goes on; a capture that raises ends the
      loop there, and the request is answered with 500. `attempted` counts the entries
      handed to the browser. */
  method CaptureMap(b: Browser, items: seq<Entry>) returns (r: Response, ghost attempted: nat)
    ensures r.status == BadRequest <==> items == []
    ensures items == [] ==> r.body == ErrorBody(MapShapeError) && attempted == 0
    ensures items != [] && FirstEscape(b, items) == |items| ==>
      r == Response(Ok, Batch(OutputDir, Done(b, items))) && attempted == |items|
    ensures FirstEscape(b, items) < |items| ==>
      r == Response(InternalError, ServerError) && attempted == FirstEscape(b, items) + 1
  {
    attempted := 0;
    if items == [] {
      return Response(BadRequest, ErrorBody(MapShapeError)), attempted;
    }
    var done: seq<string> := [];
    for i := 0 to |items|
      invariant done == Done(b, items[..i])
      invariant attempted == i
      invariant i <= FirstEscape(b, items)
    {
      var (code, target) := items[i];
      var res := CaptureOneRaw(b, code, target);
      attempted := attempted + 1;
      assert res.Uncaught? == Escapes(b, items[i].0, items[i].1);
      assert (res.Returned? && res.ok) == Succeeds(b, items[i].0, items[i].1);
      FirstEscapeScan(b, items, i);
      if res.Uncaught? {
        return Response(InternalError, ServerError), attempted;
      }
      if res.ok {
        done := done + [code];
      }
      DoneStep(b, items, i);
    }
    assert items[..|items|] == items;
    r := Response(Ok, Batch(OutputDir, done));
  }

  /** A two-entry batch whose first capture returns failure and whose second succeeds
      runs to the end and reports only the second key in `done`. */
  lemma BatchExample(b: Browser, e1: Entry, e2: Entry)
    requires !Succeeds(b, e1.0, e1.1) && !Escapes(b, e1.0, e1.1) && Succeeds(b, e2.0, e2.1)
    ensures FirstEscape(b, [e1, e2]) == 2
    ensures Done(b, [e1, e2]) == [e2.0]
  {
    var items, rest := [e1, e2], [e2];
    assert items[1..] == rest && rest[1..] == [];
    assert Done(b, rest) == [e2.0] + Done(b, []);
  }
}
