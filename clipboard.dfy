/** The clipboard history: a list of text and image entries, newest first, with per-kind caps,
    an alias-gated search, activation by key, and an encrypted record format for the history file.
    Timestamps are kept as their ISO-8601 text (Qt::ISODate), the form in which they are shown
    and stored; reading one back goes through QDateTime's parser, given as a parameter. */
module Clipboard {
  import opened Utf8
  import opened Text
  import opened Json
  import opened Feature
  import opened Options
  import opened ClipboardCipher
  import Base64

  const TextKind := "text"
  const ImageKind := "image"
  const MaxTextItems: nat := 500
  const MaxImageItems: nat := 100
  /** An image already among this many newest entries is not added again. */
  const RecentImageWindow: nat := 5
  const PreviewLength: nat := 50
  const ClipboardType := "clipboard"

  /** `kind` is the entry's `type` ("text" or "image"). */
  datatype ClipboardItem = ClipboardItem(data: string, preview: string, kind: string, timestamp: string, filePath: string)

  /** QDateTime::fromString(t, Qt::ISODate).toString(Qt::ISODate): a stored timestamp text parsed
      and shown again. Qt gives the empty text for text it cannot parse, and drops fractional
      seconds. */
  type IsoDate = string -> string

  /** Qt writes a timestamp in a form its parser reads back unchanged. */
  predicate IsoFixed(iso: IsoDate, t: string) {
    iso(t) == t
  }

  // ---------------------------------------------------------------- preview

  /** Length of the text before the first '\n'. */
  function LineLength(s: string): (n: nat)
    ensures n <= |s|
    ensures forall k :: 0 <= k < n ==> s[k] != '\n'
    ensures n < |s| ==> s[n] == '\n'
  {
    if s == [] || s[0] == '\n' then 0 else 1 + LineLength(s[1..])
  }

  /** Number of leading '\n' characters. */
  function LeadingNewlines(s: string): (n: nat)
    ensures n <= |s|
    ensures forall k :: 0 <= k < n ==> s[k] == '\n'
    ensures n < |s| ==> s[n] != '\n'
  {
    if s == [] || s[0] != '\n' then 0 else 1 + LeadingNewlines(s[1..])
  }

  /** QString::split('\n'): the pieces between the '\n' characters, empty ones included. */
  function Segments(s: string): (parts: seq<string>)
    ensures |parts| >= 1
    decreases |s|
  {
    var n := LineLength(s);
    if n == |s| then [s] else [s[..n]] + Segments(s[n + 1..])
  }

  /** Qt::SkipEmptyParts. */
  function NonEmpty(parts: seq<string>): seq<string> {
    if parts == [] then [] else (if parts[0] == [] then [] else [parts[0]]) + NonEmpty(parts[1..])
  }

  /** Some character is not a line break, so splitting with SkipEmptyParts leaves a part. */
  predicate HasLine(s: string) {
    exists k :: 0 <= k < |s| && s[k] != '\n'
  }

  /** The first non-empty line. */
  function FirstLine(s: string): (line: string)
    requires HasLine(s)
    ensures line != []
    ensures forall k :: 0 <= k < |line| ==> line[k] != '\n'
  {
    var i := LeadingNewlines(s);
    var r := s[i..];
    r[..LineLength(r)]
  }

  /** FirstLine is the first element of split('\n', Qt::SkipEmptyParts). */
  lemma {:induction false} FirstLineIsFirstPart(s: string)
    requires HasLine(s)
    ensures NonEmpty(Segments(s)) != []
    ensures NonEmpty(Segments(s))[0] == FirstLine(s)
  {
    if s[0] == '\n' {
      FirstLineSkip(s);
      FirstLineIsFirstPart(s[1..]);
      assert Segments(s) == [[]] + Segments(s[1..]);
      NonEmptyCons([], Segments(s[1..]));
    } else {
      var n := LineLength(s);
      var parts := Segments(s);
      assert parts[0] == s[..n] && parts == [parts[0]] + parts[1..];
      NonEmptyCons(parts[0], parts[1..]);
      assert s[LeadingNewlines(s)..] == s;
    }
  }

  lemma NonEmptyCons(p: string, rest: seq<string>)
    ensures NonEmpty([p] + rest) == (if p == [] then [] else [p]) + NonEmpty(rest)
  {
    assert ([p] + rest)[0] == p && ([p] + rest)[1..] == rest;
  }

  /** A leading line break does not change the first non-empty line. */
  lemma FirstLineSkip(s: string)
    requires HasLine(s) && s[0] == '\n'
    ensures HasLine(s[1..]) && FirstLine(s) == FirstLine(s[1..])
  {
    var k :| 0 <= k < |s| && s[k] != '\n';
    assert s[1..][k - 1] != '\n';
    assert s[LeadingNewlines(s)..] == s[1..][LeadingNewlines(s[1..])..];
  }

  /** Clipboard::createPreview: empty for empty text, otherwise the first non-empty line, cut to
      50 characters followed by "..." when it is longer. Splitting an all-'\n' text leaves no
      part to take, so such a text is outside what the source handles. */
  function CreatePreview(text: string): (p: string)
    requires text == [] || HasLine(text)
    ensures p == [] <==> text == []
    ensures |p| <= PreviewLength + 3
  {
    if text == [] then []
    else
      var line := FirstLine(text);
      if |line| > PreviewLength then line[..PreviewLength] + "..." else line
  }

  lemma PreviewOfFirstPart(text: string)
    requires HasLine(text)
    ensures NonEmpty(Segments(text)) != []
    ensures var line := NonEmpty(Segments(text))[0];
      CreatePreview(text) == if |line| > PreviewLength then line[..PreviewLength] + "..." else line
    ensures forall k :: 0 <= k < |CreatePreview(text)| ==> CreatePreview(text)[k] != '\n'
  {
    FirstLineIsFirstPart(text);
  }

  /** A text that is not all white space has a line: '\n' is white space. */
  lemma NotBlankHasLine(text: string)
    requires !AllSpace(text)
    ensures HasLine(text)
  {
    var k :| 0 <= k < |text| && !IsSpace(text[k]);
    assert text[k] != '\n';
  }

  // ---------------------------------------------------------------- per-kind caps

  /** The entries of one kind, in history order. */
  function Only(s: seq<ClipboardItem>, kind: string): (r: seq<ClipboardItem>)
    ensures |r| <= |s|
  {
    if s == [] then [] else (if s[0].kind == kind then [s[0]] else []) + Only(s[1..], kind)
  }

  /** The entries of every other kind, in history order. */
  function Without(s: seq<ClipboardItem>, kind: string): seq<ClipboardItem> {
    if s == [] then [] else (if s[0].kind == kind then [] else [s[0]]) + Without(s[1..], kind)
  }

  /** Entry 0 survives the trim loop when it is of another kind or when at most `cap` entries of
      its kind lie at or behind it: the loop counts from the tail, so the surplus it removes is
      the newest. */
  predicate Survives(s: seq<ClipboardItem>, kind: string, cap: nat)
    requires s != []
  {
    s[0].kind != kind || |Only(s, kind)| <= cap
  }

  /** The history after the trim loop of addTextItem / addImageItem. */
  function Capped(s: seq<ClipboardItem>, kind: string, cap: nat): seq<ClipboardItem> {
    if s == [] then []
    else (if Survives(s, kind, cap) then [s[0]] else []) + Capped(s[1..], kind, cap)
  }

  /** The file paths of the removed entries, in the order the loop removes them (tail first). */
  function RemovedPaths(s: seq<ClipboardItem>, kind: string, cap: nat): seq<string> {
    if s == [] then []
    else RemovedPaths(s[1..], kind, cap) + (if Survives(s, kind, cap) then [] else [s[0].filePath])
  }

  function Min(a: nat, b: nat): nat {
    if a <= b then a else b
  }

  lemma EmptyConcat<T>(s: seq<T>)
    ensures [] + s == s
  {
  }

  lemma ConsTail<T>(x: T, s: seq<T>)
    ensures ([x] + s)[1..] == s
  {
  }

  lemma OnlyCons(x: ClipboardItem, s: seq<ClipboardItem>, kind: string)
    ensures Only([x] + s, kind) == (if x.kind == kind then [x] else []) + Only(s, kind)
    ensures Without([x] + s, kind) == (if x.kind == kind then [] else [x]) + Without(s, kind)
  {
    ConsTail(x, s);
  }

  /** One step of the trim loop, at position i. */
  lemma CapStep(h0: seq<ClipboardItem>, i: nat, kind: string, cap: nat)
    requires i < |h0|
    ensures Survives(h0[i..], kind, cap) <==> h0[i].kind != kind || |Only(h0[i..], kind)| <= cap
    ensures Capped(h0[i..], kind, cap) ==
      (if Survives(h0[i..], kind, cap) then [h0[i]] else []) + Capped(h0[i + 1..], kind, cap)
    ensures |Only(h0[i..], kind)| == |Only(h0[i + 1..], kind)| + (if h0[i].kind == kind then 1 else 0)
    ensures RemovedPaths(h0[i..], kind, cap) ==
      RemovedPaths(h0[i + 1..], kind, cap) + (if Survives(h0[i..], kind, cap) then [] else [h0[i].filePath])
  {
    assert h0[i..][0] == h0[i] && h0[i..][1..] == h0[i + 1..];
  }

  /** Keeping or removing entry i of `h0[..i + 1] + rest`. */
  lemma Splice<T>(h0: seq<T>, i: nat, rest: seq<T>)
    requires i < |h0|
    ensures (h0[..i + 1] + rest)[i] == h0[i]
    ensures h0[..i + 1] + rest == h0[..i] + ([h0[i]] + rest)
    ensures (h0[..i + 1] + rest)[..i] + (h0[..i + 1] + rest)[i + 1..] == h0[..i] + rest
  {
    assert h0[..i + 1] == h0[..i] + [h0[i]];
  }

  /** Entries of other kinds are all kept, in order. */
  lemma {:induction false} CappedKeepsOthers(s: seq<ClipboardItem>, kind: string, cap: nat)
    ensures Without(Capped(s, kind, cap), kind) == Without(s, kind)
  {
    if s != [] {
      CappedKeepsOthers(s[1..], kind, cap);
      var rest := Capped(s[1..], kind, cap);
      OnlyCons(s[0], s[1..], kind);
      assert s == [s[0]] + s[1..];
      if Survives(s, kind, cap) {
        assert Capped(s, kind, cap) == [s[0]] + rest;
        OnlyCons(s[0], rest, kind);
      } else {
        assert Capped(s, kind, cap) == rest;
      }
    }
  }

  /** Of the entries of `kind`, the last min(count, cap) are kept: the oldest ones, since the
      history is newest first. */
  lemma {:induction false} CappedKeepsOldest(s: seq<ClipboardItem>, kind: string, cap: nat)
    ensures var all := Only(s, kind);
      Only(Capped(s, kind, cap), kind) == all[|all| - Min(|all|, cap)..]
  {
    if s != [] {
      CappedKeepsOldest(s[1..], kind, cap);
      var rest := Capped(s[1..], kind, cap);
      var tail := Only(s[1..], kind);
      var kept := tail[|tail| - Min(|tail|, cap)..];
      assert Only(rest, kind) == kept;
      OnlyCons(s[0], s[1..], kind);
      assert s == [s[0]] + s[1..];
      if s[0].kind != kind {
        assert Capped(s, kind, cap) == [s[0]] + rest;
        OnlyCons(s[0], rest, kind);
      } else if |tail| + 1 > cap {
        assert Capped(s, kind, cap) == rest;
        assert Only(s, kind) == [s[0]] + tail;
        DropCons(s[0], tail, |tail| + 1 - cap);
      } else {
        assert Capped(s, kind, cap) == [s[0]] + rest;
        OnlyCons(s[0], rest, kind);
        assert kept == tail;
      }
    }
  }

  lemma DropCons<T>(x: T, t: seq<T>, k: nat)
    requires 1 <= k <= |t| + 1
    ensures ([x] + t)[k..] == t[k - 1..]
  {
  }

  /** At most `cap` entries of the kind remain, and exactly that many when there were more. */
  lemma CappedCount(s: seq<ClipboardItem>, kind: string, cap: nat)
    ensures |Only(Capped(s, kind, cap), kind)| == Min(|Only(s, kind)|, cap)
  {
    CappedKeepsOldest(s, kind, cap);
  }

  /** Within the cap nothing is removed. */
  lemma {:induction false} CappedUnderCap(s: seq<ClipboardItem>, kind: string, cap: nat)
    requires |Only(s, kind)| <= cap
    ensures Capped(s, kind, cap) == s
    ensures RemovedPaths(s, kind, cap) == []
  {
    if s != [] {
      assert |Only(s[1..], kind)| <= |Only(s, kind)|;
      CappedUnderCap(s[1..], kind, cap);
    }
  }

  /** One removed path per surplus entry. */
  lemma {:induction false} RemovedCount(s: seq<ClipboardItem>, kind: string, cap: nat)
    ensures |RemovedPaths(s, kind, cap)| == |Only(s, kind)| - Min(|Only(s, kind)|, cap)
  {
    if s != [] {
      RemovedCount(s[1..], kind, cap);
    }
  }

  /** With the kind already at its cap, a new newest entry of that kind is itself the surplus:
      the history comes back unchanged. */
  lemma FullKindFreezes(x: ClipboardItem, s: seq<ClipboardItem>, cap: nat)
    requires |Only(s, x.kind)| == cap
    ensures Capped([x] + s, x.kind, cap) == s
    ensures RemovedPaths([x] + s, x.kind, cap) == [x.filePath]
  {
    ConsTail(x, s);
    assert Only([x] + s, x.kind) == [x] + Only(s, x.kind);
    CappedUnderCap(s, x.kind, cap);
  }

  // ---------------------------------------------------------------- search

  /** The entry's key: its file path when it has one, otherwise its data. */
  function Key(item: ClipboardItem): string {
    if item.filePath == [] then item.data else item.filePath
  }

  function IconOf(item: ClipboardItem): string {
    if item.kind == TextKind then "text-plain" else if item.kind == ImageKind then item.filePath else ""
  }

  function ToResult(item: ClipboardItem): (r: FeatureItem)
    ensures r.title == item.preview && r.subtitle == item.timestamp
    ensures r.data == Key(item) && r.itemType == ClipboardType
  {
    FeatureItem(item.preview, item.timestamp, IconOf(item), Key(item), ClipboardType)
  }

  /** The text after the alias: "clipboard " and "clip " are tried on the lower-cased query and
      the rest taken from the query as typed; a bare "clipboard" or "clip" leaves nothing. */
  function Remainder(query: string): Option<string> {
    var lower := LowerStr(query);
    if StartsWith(lower, "clipboard ") then Some(query[10..])
    else if StartsWith(lower, "clip ") then Some(query[5..])
    else if lower == "clipboard" || lower == "clip" then Some("")
    else None
  }

  lemma LowerOfLower(p: string)
    requires forall k :: 0 <= k < |p| ==> !('A' <= p[k] <= 'Z')
    ensures LowerStr(p) == p
  {
  }

  /** The alias is recognised ignoring case, and the remainder is what follows it. */
  lemma RemainderSpec(query: string)
    ensures Remainder(query).Some? <==>
      StartsWithIgnoringCase(query, "clipboard ") || StartsWithIgnoringCase(query, "clip ")
      || (|query| == 9 && StartsWithIgnoringCase(query, "clipboard"))
      || (|query| == 4 && StartsWithIgnoringCase(query, "clip"))
    ensures StartsWithIgnoringCase(query, "clipboard ") ==> Remainder(query) == Some(query[10..])
    ensures StartsWithIgnoringCase(query, "clip ") ==> Remainder(query) == Some(query[5..])
  {
    LowerOfLower("clipboard ");
    LowerOfLower("clip ");
    LowerOfLower("clipboard");
    LowerOfLower("clip");
    var lower := LowerStr(query);
    if |query| >= 10 {
      assert lower[..10][4] == lower[4];
      assert lower[..10] == LowerStr(query[..10]);
    }
    if |query| >= 9 {
      assert lower[..9] == LowerStr(query[..9]);
    }
    if |query| >= 5 {
      assert lower[..5] == LowerStr(query[..5]);
      assert lower[..5][4] == lower[4];
    }
    if |query| >= 4 {
      assert lower[..4] == LowerStr(query[..4]);
    }
  }

  /** The search filter: no remainder, or a remainder found in the lower-cased preview, compared
      with case. */
  predicate Matches(item: ClipboardItem, rest: string) {
    rest == [] || Contains(LowerStr(item.preview), rest)
  }

  /** The matching entries as results, in history order. */
  function Listed(h: seq<ClipboardItem>, rest: string): (r: seq<FeatureItem>)
    ensures |r| <= |h|
  {
    if h == [] then []
    else
      var last := h[|h| - 1];
      Listed(h[..|h| - 1], rest) + (if Matches(last, rest) then [ToResult(last)] else [])
  }

  /** Clipboard::search. */
  function SearchResults(h: seq<ClipboardItem>, query: string): seq<FeatureItem> {
    match Remainder(query)
    case None => []
    case Some(rest) => Listed(h, rest)
  }

  /** A result comes from a matching entry, and every matching entry gives a result. */
  lemma {:induction false} ListedExactly(h: seq<ClipboardItem>, rest: string)
    ensures forall r :: r in Listed(h, rest) <==>
      exists i :: 0 <= i < |h| && Matches(h[i], rest) && r == ToResult(h[i])
  {
    if h != [] {
      var init := h[..|h| - 1];
      ListedExactly(init, rest);
      forall i | 0 <= i < |init| ensures init[i] == h[i] {
      }
    }
  }

  /** Every entry is listed for a bare alias, in history order. */
  lemma {:induction false} ListedBareAlias(h: seq<ClipboardItem>)
    ensures |Listed(h, [])| == |h|
    ensures forall i :: 0 <= i < |h| ==> Listed(h, [])[i] == ToResult(h[i])
  {
    if h != [] {
      var n := |h| - 1;
      var init := h[..n];
      ListedBareAlias(init);
      assert Listed(h, []) == Listed(init, []) + [ToResult(h[n])];
      forall i | 0 <= i < n ensures Listed(h, [])[i] == ToResult(h[i]) {
        assert init[i] == h[i];
      }
    }
  }

  /** The lower-cased preview holds no upper-case ASCII letter, so a remainder typed with one
      finds nothing. */
  lemma UpperCaseFindsNothing(h: seq<ClipboardItem>, rest: string, k: nat)
    requires k < |rest| && 'A' <= rest[k] <= 'Z'
    ensures Listed(h, rest) == []
  {
    forall item: ClipboardItem ensures !Matches(item, rest) {
      NoUpperInLower(item.preview, rest, k);
    }
    ListedNone(h, rest);
  }

  lemma NoUpperInLower(s: string, rest: string, k: nat)
    requires k < |rest| && 'A' <= rest[k] <= 'Z'
    ensures !Contains(LowerStr(s), rest)
  {
    var low := LowerStr(s);
    forall i | 0 <= i <= |low| ensures !OccursAt(low, rest, i) {
      if i + |rest| <= |low| {
        assert low[i..i + |rest|][k] == low[i + k];
      }
    }
  }

  lemma {:induction false} ListedNone(h: seq<ClipboardItem>, rest: string)
    requires forall item: ClipboardItem :: !Matches(item, rest)
    ensures Listed(h, rest) == []
  {
    if h != [] {
      ListedNone(h[..|h| - 1], rest);
    }
  }

  // ---------------------------------------------------------------- execute

  /** The first entry whose key is `key`. */
  function FirstWithKey(h: seq<ClipboardItem>, key: string): (r: Option<nat>)
    ensures r.Some? ==> r.value < |h| && Key(h[r.value]) == key
    ensures r.Some? ==> forall j :: 0 <= j < r.value ==> Key(h[j]) != key
    ensures r.None? ==> forall j :: 0 <= j < |h| ==> Key(h[j]) != key
  {
    if h == [] then None
    else if Key(h[0]) == key then Some(0)
    else match FirstWithKey(h[1..], key)
      case None => None
      case Some(j) => Some(j + 1)
  }

  /** Clipboard::execute: text goes back to the clipboard as text, an image as the image loaded
      from its file when that loads (`loads`); a key no entry has does nothing. */
  function ExecuteEffect(h: seq<ClipboardItem>, item: FeatureItem, loads: string -> bool): Effect {
    match FirstWithKey(h, item.data)
    case None => NoEffect
    case Some(i) =>
      var entry := h[i];
      if entry.kind == TextKind then SetClipboardText(entry.data)
      else if entry.kind == ImageKind && loads(entry.filePath) then SetClipboardImage(entry.filePath)
      else NoEffect
  }

  /** Activating the result of a text entry that is the first with its key copies its text back. */
  lemma ExecuteListedText(h: seq<ClipboardItem>, i: nat, loads: string -> bool)
    requires i < |h| && h[i].kind == TextKind
    requires forall j :: 0 <= j < i ==> Key(h[j]) != Key(h[i])
    ensures ExecuteEffect(h, ToResult(h[i]), loads) == SetClipboardText(h[i].data)
  {
    var r := FirstWithKey(h, Key(h[i]));
    assert r.Some?;
    assert r.value == i;
  }

  // ---------------------------------------------------------------- history records

  /** One saved record: type, data and preview sealed and base64-encoded, timestamp, and the file
      path only when there is one. Each `encrypt` call draws its own IV, given here. */
  function SaveRecord(h: Hash, mac: Mac, key: bytes, enabled: bool, item: ClipboardItem, ivs: (Iv, Iv)): Json {
    Record(item.kind, SealedText(h, mac, key, enabled, ivs.0, item.data),
      SealedText(h, mac, key, enabled, ivs.1, item.preview), item.timestamp, item.filePath)
  }

  /** encrypt followed by toBase64. */
  function SealedText(h: Hash, mac: Mac, key: bytes, enabled: bool, iv: Iv, text: string): string {
    Base64.Encode(Seal(h, mac, key, enabled, iv, text))
  }

  function Record(kind: string, data: string, preview: string, timestamp: string, filePath: string): Json {
    var fields := map["t" := JString(kind), "d" := JString(data), "p" := JString(preview), "ts" := JString(timestamp)];
    JObject(if filePath == [] then fields else fields["f" := JString(filePath)])
  }

  lemma RecordFields(kind: string, data: string, preview: string, timestamp: string, filePath: string)
    ensures var r := Record(kind, data, preview, timestamp, filePath);
      Field(r, "t") == JString(kind) && Field(r, "d") == JString(data) && Field(r, "p") == JString(preview)
      && Field(r, "ts") == JString(timestamp) && ToText(Field(r, "f")) == filePath
  {
  }

  function SaveRecords(h: Hash, mac: Mac, key: bytes, enabled: bool, items: seq<ClipboardItem>, ivs: seq<(Iv, Iv)>): (r: seq<Json>)
    requires |ivs| == |items|
    ensures |r| == |items|
  {
    if items == [] then []
    else [SaveRecord(h, mac, key, enabled, items[0], ivs[0])] + SaveRecords(h, mac, key, enabled, items[1..], ivs[1..])
  }

  /** A sealed field read back: base64-decoded, then decrypted. */
  function OpenField(h: Hash, mac: Mac, key: bytes, enabled: bool, v: Json): string {
    Open(h, mac, key, enabled, Base64.Decode(ToText(v)))
  }

  /** One loaded record; missing or mistyped fields read as empty. */
  function LoadRecord(h: Hash, mac: Mac, key: bytes, enabled: bool, iso: IsoDate, v: Json): ClipboardItem {
    ClipboardItem(
      OpenField(h, mac, key, enabled, Field(v, "d")),
      OpenField(h, mac, key, enabled, Field(v, "p")),
      ToText(Field(v, "t")),
      iso(ToText(Field(v, "ts"))),
      ToText(Field(v, "f")))
  }

  function LoadRecords(h: Hash, mac: Mac, key: bytes, enabled: bool, iso: IsoDate, records: seq<Json>): (r: seq<ClipboardItem>)
    ensures |r| == |records|
    ensures forall i :: 0 <= i < |records| ==> r[i] == LoadRecord(h, mac, key, enabled, iso, records[i])
  {
    seq(|records|, i requires 0 <= i < |records| => LoadRecord(h, mac, key, enabled, iso, records[i]))
  }

  /** What loadHistory appends: the records of an array document, nothing for a missing file or
      any other document. */
  function LoadedHistory(h: Hash, mac: Mac, key: bytes, enabled: bool, iso: IsoDate, file: Option<Json>): seq<ClipboardItem> {
    if file.Some? && file.value.JArray? then LoadRecords(h, mac, key, enabled, iso, file.value.items) else []
  }

  /** The record's keys: the four fixed ones, and "f" exactly when there is a file path. */
  lemma SaveRecordKeys(h: Hash, mac: Mac, key: bytes, enabled: bool, item: ClipboardItem, ivs: (Iv, Iv))
    ensures SaveRecord(h, mac, key, enabled, item, ivs).JObject?
    ensures SaveRecord(h, mac, key, enabled, item, ivs).fields.Keys ==
      {"t", "d", "p", "ts"} + (if item.filePath == [] then {} else {"f"})
  {
  }

  lemma SealedRoundTrip(h: Hash, mac: Mac, key: bytes, enabled: bool, iv: Iv, text: string)
    ensures OpenField(h, mac, key, enabled, JString(SealedText(h, mac, key, enabled, iv, text))) == DropBom(text)
    ensures !LeadsWithBom(text) ==> OpenField(h, mac, key, enabled, JString(SealedText(h, mac, key, enabled, iv, text))) == text
  {
    Base64.DecodeEncode(Seal(h, mac, key, enabled, iv, text));
    OpenSeal(h, mac, key, enabled, iv, text);
  }

  /** What an entry reads back as from the history file: data and preview lose a leading U+FEFF,
      and the timestamp is what the parser makes of it. */
  function ReadBack(iso: IsoDate, item: ClipboardItem): ClipboardItem {
    item.(data := DropBom(item.data), preview := DropBom(item.preview), timestamp := iso(item.timestamp))
  }

  /** An entry that reads back unchanged: its timestamp is text Qt wrote, and neither data nor
      preview starts with U+FEFF. */
  predicate Persistent(iso: IsoDate, item: ClipboardItem) {
    IsoFixed(iso, item.timestamp) && !LeadsWithBom(item.data) && !LeadsWithBom(item.preview)
  }

  /** Loading a saved record gives ReadBack of the entry, whatever the key and IVs; so a
      persistent entry comes back exactly. */
  lemma LoadSaveRecord(h: Hash, mac: Mac, key: bytes, enabled: bool, iso: IsoDate, item: ClipboardItem, ivs: (Iv, Iv))
    ensures LoadRecord(h, mac, key, enabled, iso, SaveRecord(h, mac, key, enabled, item, ivs)) == ReadBack(iso, item)
    ensures Persistent(iso, item) ==>
      LoadRecord(h, mac, key, enabled, iso, SaveRecord(h, mac, key, enabled, item, ivs)) == item
  {
    var d := SealedText(h, mac, key, enabled, ivs.0, item.data);
    var p := SealedText(h, mac, key, enabled, ivs.1, item.preview);
    RecordFields(item.kind, d, p, item.timestamp, item.filePath);
    SealedRoundTrip(h, mac, key, enabled, ivs.0, item.data);
    SealedRoundTrip(h, mac, key, enabled, ivs.1, item.preview);
  }

  /** Saving the history and loading the file into an empty history gives the same entries in the
      same order. */
  lemma {:induction false} SaveRecordsAt(h: Hash, mac: Mac, key: bytes, enabled: bool, items: seq<ClipboardItem>,
                                         ivs: seq<(Iv, Iv)>, i: nat)
    requires |ivs| == |items| && i < |items|
    ensures SaveRecords(h, mac, key, enabled, items, ivs)[i] == SaveRecord(h, mac, key, enabled, items[i], ivs[i])
    decreases i
  {
    if i > 0 {
      SaveRecordsAt(h, mac, key, enabled, items[1..], ivs[1..], i - 1);
    }
  }

  lemma LoadSaveHistory(h: Hash, mac: Mac, key: bytes, enabled: bool, iso: IsoDate, items: seq<ClipboardItem>,
                        ivs: seq<(Iv, Iv)>)
    requires |ivs| == |items|
    ensures var loaded := LoadedHistory(h, mac, key, enabled, iso, Some(JArray(SaveRecords(h, mac, key, enabled, items, ivs))));
      |loaded| == |items| && forall i :: 0 <= i < |items| ==> loaded[i] == ReadBack(iso, items[i])
    ensures (forall i :: 0 <= i < |items| ==> Persistent(iso, items[i])) ==>
      LoadedHistory(h, mac, key, enabled, iso, Some(JArray(SaveRecords(h, mac, key, enabled, items, ivs)))) == items
  {
    var recs := SaveRecords(h, mac, key, enabled, items, ivs);
    var loaded := LoadRecords(h, mac, key, enabled, iso, recs);
    forall i | 0 <= i < |items| ensures loaded[i] == ReadBack(iso, items[i]) {
      SaveRecordsAt(h, mac, key, enabled, items, ivs, i);
      LoadSaveRecord(h, mac, key, enabled, iso, items[i], ivs[i]);
    }
    if forall i :: 0 <= i < |items| ==> Persistent(iso, items[i]) {
      assert loaded == items;
    }
  }

  // ---------------------------------------------------------------- the history

  /** What the system clipboard holds when it changes. */
  datatype Content = ImageContent | TextContent(text: string) | OtherContent

  function TextItem(text: string, now: string): ClipboardItem
    requires text == [] || HasLine(text)
  {
    ClipboardItem(text, CreatePreview(text), TextKind, now, "")
  }

  function ImageItem(path: string, clock: string, now: string): ClipboardItem {
    ClipboardItem("Image", "Image (copied at " + clock + ")", ImageKind, now, path)
  }

  /** Some text entry already holds this text. */
  predicate HasText(h: seq<ClipboardItem>, text: string) {
    exists k :: 0 <= k < |h| && h[k].kind == TextKind && h[k].data == text
  }

  /** One of the newest entries is an image that `sameImage` recognises. */
  predicate RecentImage(h: seq<ClipboardItem>, sameImage: string -> bool) {
    exists k :: 0 <= k < |h| && k < RecentImageWindow && h[k].kind == ImageKind && sameImage(h[k].filePath)
  }

  /** Clipboard: the history, newest first, and the cipher key it is stored under. Hash and MAC
      are the SHA-256 and HMAC-SHA-256 the store uses. */
  class ClipboardHistory {
    var history: seq<ClipboardItem>
    const hash: Hash
    const mac: Mac
    const key: bytes
    const encryptionEnabled: bool
    const isoDate: IsoDate

    /** Construction with `key` (read from the key file or derived on first start) and the
        parsed history file, if any; encryption is on. */
    constructor (hash: Hash, mac: Mac, key: bytes, isoDate: IsoDate, file: Option<Json>)
      ensures this.hash == hash && this.mac == mac && this.key == key && this.isoDate == isoDate
      ensures encryptionEnabled
      ensures history == LoadedHistory(hash, mac, key, true, isoDate, file)
    {
      this.hash := hash;
      this.mac := mac;
      this.key := key;
      this.isoDate := isoDate;
      encryptionEnabled := true;
      history := [];
      new;
      ghost var loaded := LoadedHistory(hash, mac, key, true, isoDate, file);
      LoadHistory(file);
      EmptyConcat(loaded);
    }

    /** Clipboard::onClipboardChanged: an image is offered as an image, otherwise text as text. */
    method OnClipboardChanged(content: Content, sameImage: string -> bool, storedPath: string, clock: string, now: string)
      returns (deleted: seq<string>)
      modifies this
      ensures content.ImageContent? ==>
        (history, deleted) == ImageInsertion(old(history), sameImage, storedPath, clock, now)
      ensures content.TextContent? ==>
        history == TextInsertion(old(history), content.text, now) && deleted == []
      ensures content.OtherContent? ==> history == old(history) && deleted == []
    {
      deleted := [];
      if content.ImageContent? {
        deleted := AddImageItem(sameImage, storedPath, clock, now);
      } else if content.TextContent? {
        AddTextItem(content.text, now);
      }
    }

    /** Clipboard::addTextItem. */
    method AddTextItem(text: string, now: string)
      modifies this
      ensures history == TextInsertion(old(history), text, now)
    {
      if Trim(text) == [] {
        return;
      }
      var found := HoldsText(text);
      if found {
        return;
      }
      NotBlankHasLine(text);
      history := [TextItem(text, now)] + history;
      var _ := CapKind(TextKind, MaxTextItems);
    }

    /** The duplicate check of addTextItem: some text entry holds exactly `text`. */
    method HoldsText(text: string) returns (found: bool)
      ensures found == HasText(history, text)
    {
      var j := 0;
      while j < |history|
        invariant 0 <= j <= |history|
        invariant forall k :: 0 <= k < j ==> !(history[k].kind == TextKind && history[k].data == text)
      {
        if history[j].kind == TextKind && history[j].data == text {
          return true;
        }
        j := j + 1;
      }
      return false;
    }

    /** Clipboard::addImageItem. `sameImage` says whether the image stored at a path equals the
        new one; `storedPath` is where storeImage saved it, empty when it could not. The result
        lists the image files the trim deletes. */
    method AddImageItem(sameImage: string -> bool, storedPath: string, clock: string, now: string)
      returns (deleted: seq<string>)
      modifies this
      ensures (history, deleted) == ImageInsertion(old(history), sameImage, storedPath, clock, now)
    {
      deleted := [];
      var j := 0;
      while j < Min(RecentImageWindow, |history|)
        invariant 0 <= j <= Min(RecentImageWindow, |history|)
        invariant forall k :: 0 <= k < j ==> !(history[k].kind == ImageKind && sameImage(history[k].filePath))
      {
        if history[j].kind == ImageKind && sameImage(history[j].filePath) {
          return;
        }
        j := j + 1;
      }
      if storedPath == [] {
        return;
      }
      history := [ImageItem(storedPath, clock, now)] + history;
      deleted := CapKind(ImageKind, MaxImageItems);
    }

    /** The trim loop: from the last entry to the first, counting entries of `kind` and removing
        each one counted beyond `cap`. */
    method CapKind(kind: string, cap: nat) returns (removed: seq<string>)
      modifies this
      ensures history == Capped(old(history), kind, cap)
      ensures removed == RemovedPaths(old(history), kind, cap)
    {
      ghost var h0 := history;
      var count := 0;
      var i := |history|;
      removed := [];
      while i > 0
        invariant 0 <= i <= |h0|
        invariant history == h0[..i] + Capped(h0[i..], kind, cap)
        invariant count == |Only(h0[i..], kind)|
        invariant removed == RemovedPaths(h0[i..], kind, cap)
      {
        i := i - 1;
        CapStep(h0, i, kind, cap);
        Splice(h0, i, Capped(h0[i + 1..], kind, cap));
        if history[i].kind == kind {
          count := count + 1;
          if count > cap {
            removed := removed + [history[i].filePath];
            history := history[..i] + history[i + 1..];
          }
        }
      }
      assert h0[0..] == h0;
    }

    /** Clipboard::search. */
    method Search(query: string) returns (results: seq<FeatureItem>)
      ensures results == SearchResults(history, query)
    {
      results := [];
      var lower := LowerStr(query);
      var rest: string;
      if StartsWith(lower, "clipboard ") {
        rest := query[10..];
      } else if StartsWith(lower, "clip ") {
        rest := query[5..];
      } else if lower == "clipboard" || lower == "clip" {
        rest := "";
      } else {
        return;
      }
      var j := 0;
      while j < |history|
        invariant 0 <= j <= |history|
        invariant results == Listed(history[..j], rest)
      {
        var item := history[j];
        assert history[..j + 1][..j] == history[..j];
        if rest == [] || Contains(LowerStr(item.preview), rest) {
          results := results + [ToResult(item)];
        }
        j := j + 1;
      }
      assert history[..j] == history;
    }

    /** Clipboard::execute: the history is not changed. */
    method Execute(item: FeatureItem, loads: string -> bool) returns (effect: Effect)
      ensures effect == ExecuteEffect(history, item, loads)
    {
      effect := NoEffect;
      var j := 0;
      while j < |history|
        invariant 0 <= j <= |history|
        invariant forall k :: 0 <= k < j ==> Key(history[k]) != item.data
      {
        var entry := history[j];
        var data := if entry.filePath == [] then entry.data else entry.filePath;
        if data == item.data {
          if entry.kind == TextKind {
            effect := SetClipboardText(entry.data);
          } else if entry.kind == ImageKind {
            if loads(entry.filePath) {
              effect := SetClipboardImage(entry.filePath);
            }
          }
          assert FirstWithKey(history, item.data) == Some(j);
          return;
        }
        j := j + 1;
      }
    }

    /** Clipboard::saveHistory: the document written, one record per entry in history order, with
        the IVs drawn for the data and preview of each entry. */
    method SaveHistory(ivs: seq<(Iv, Iv)>) returns (doc: Json)
      requires |ivs| == |history|
      ensures doc == JArray(SaveRecords(hash, mac, key, encryptionEnabled, history, ivs))
    {
      var records: seq<Json> := [];
      var j := |history|;
      while j > 0
        invariant 0 <= j <= |history|
        invariant records == SaveRecords(hash, mac, key, encryptionEnabled, history[j..], ivs[j..])
      {
        j := j - 1;
        var item := history[j];
        var d := Encrypt(hash, mac, key, encryptionEnabled, ivs[j].0, item.data);
        var p := Encrypt(hash, mac, key, encryptionEnabled, ivs[j].1, item.preview);
        var fields := map["t" := JString(item.kind), "d" := JString(Base64.Encode(d)),
                          "p" := JString(Base64.Encode(p)), "ts" := JString(item.timestamp)];
        if item.filePath != [] {
          fields := fields["f" := JString(item.filePath)];
        }
        records := [JObject(fields)] + records;
        assert history[j..][1..] == history[j + 1..] && ivs[j..][1..] == ivs[j + 1..];
      }
      doc := JArray(records);
    }

    /** One iteration of loadHistory: the entry a record describes. */
    method ReadRecord(v: Json) returns (item: ClipboardItem)
      ensures item == LoadRecord(hash, mac, key, encryptionEnabled, isoDate, v)
    {
      var data := Decrypt(hash, mac, key, encryptionEnabled, Base64.Decode(ToText(Field(v, "d"))));
      var preview := Decrypt(hash, mac, key, encryptionEnabled, Base64.Decode(ToText(Field(v, "p"))));
      var timestamp := isoDate(ToText(Field(v, "ts")));
      item := ClipboardItem(data, preview, ToText(Field(v, "t")), timestamp, ToText(Field(v, "f")));
    }

    /** Clipboard::loadHistory: the records of the file appended to the history in file order. */
    method LoadHistory(file: Option<Json>)
      modifies this
      ensures history == old(history) + LoadedHistory(hash, mac, key, encryptionEnabled, isoDate, file)
    {
      if file.Some? && file.value.JArray? {
        var items := ReadRecords(file.value.items);
        history := history + items;
      }
    }

    /** The loop of loadHistory: one entry per record, in file order. */
    method ReadRecords(records: seq<Json>) returns (items: seq<ClipboardItem>)
      ensures items == LoadRecords(hash, mac, key, encryptionEnabled, isoDate, records)
    {
      items := [];
      var j := 0;
      while j < |records|
        invariant 0 <= j <= |records|
        invariant |items| == j
        invariant forall i :: 0 <= i < j ==> items[i] == LoadRecord(hash, mac, key, encryptionEnabled, isoDate, records[i])
      {
        var item := ReadRecord(records[j]);
        items := items + [item];
        j := j + 1;
      }
    }
  }

  /** The history after addTextItem: unchanged for blank text or text already held by a text
      entry, otherwise the new entry in front and the text kind trimmed to 500. */
  function TextInsertion(h: seq<ClipboardItem>, text: string, now: string): seq<ClipboardItem> {
    if AllSpace(text) || HasText(h, text) then h
    else
      NotBlankHasLine(text);
      Capped([TextItem(text, now)] + h, TextKind, MaxTextItems)
  }

  /** The history after addImageItem and the image files it deletes. */
  function ImageInsertion(h: seq<ClipboardItem>, sameImage: string -> bool, storedPath: string, clock: string, now: string)
    : (seq<ClipboardItem>, seq<string>)
  {
    if RecentImage(h, sameImage) || storedPath == [] then (h, [])
    else
      var s := [ImageItem(storedPath, clock, now)] + h;
      (Capped(s, ImageKind, MaxImageItems), RemovedPaths(s, ImageKind, MaxImageItems))
  }

  /** A text insertion puts the new entry in front, keeps every image entry, and leaves at most
      500 text entries. */
  lemma TextInsertionSpec(h: seq<ClipboardItem>, text: string, now: string)
    requires !AllSpace(text) && !HasText(h, text) && |Only(h, TextKind)| < MaxTextItems
    ensures var r := TextInsertion(h, text, now);
      r == [TextItem(text, now)] + h && r[0].data == text && r[0].kind == TextKind
  {
    NotBlankHasLine(text);
    var x := TextItem(text, now);
    ConsTail(x, h);
    assert Only([x] + h, TextKind) == [x] + Only(h, TextKind);
    CappedUnderCap([x] + h, TextKind, MaxTextItems);
  }

  /** Whatever is inserted, image entries survive a text insertion and text entries an image
      insertion, and the caps hold for the inserted kind. */
  lemma InsertionKeepsOtherKind(h: seq<ClipboardItem>, text: string, sameImage: string -> bool, storedPath: string, clock: string, now: string)
    ensures Without(TextInsertion(h, text, now), TextKind) == Without(h, TextKind)
    ensures |Only(TextInsertion(h, text, now), TextKind)| <= MaxTextItems || TextInsertion(h, text, now) == h
    ensures Without(ImageInsertion(h, sameImage, storedPath, clock, now).0, ImageKind) == Without(h, ImageKind)
    ensures |Only(ImageInsertion(h, sameImage, storedPath, clock, now).0, ImageKind)| <= MaxImageItems
      || ImageInsertion(h, sameImage, storedPath, clock, now).0 == h
  {
    if !(AllSpace(text) || HasText(h, text)) {
      NotBlankHasLine(text);
      var s := [TextItem(text, now)] + h;
      CappedKeepsOthers(s, TextKind, MaxTextItems);
      CappedCount(s, TextKind, MaxTextItems);
      ConsTail(TextItem(text, now), h);
    }
    if !(RecentImage(h, sameImage) || storedPath == []) {
      var s := [ImageItem(storedPath, clock, now)] + h;
      CappedKeepsOthers(s, ImageKind, MaxImageItems);
      CappedCount(s, ImageKind, MaxImageItems);
      ConsTail(ImageItem(storedPath, clock, now), h);
    }
  }

  /** With 500 text entries held, a new text is dropped at once by the trim: the history stays as
      it was. */
  lemma TextLimitFreezes(h: seq<ClipboardItem>, text: string, now: string)
    requires !AllSpace(text) && |Only(h, TextKind)| == MaxTextItems
    ensures TextInsertion(h, text, now) == h
  {
    if !HasText(h, text) {
      NotBlankHasLine(text);
      FullKindFreezes(TextItem(text, now), h, MaxTextItems);
    }
  }

  /** An inserted image is the newest entry and has a file; with 100 images held it is the one
      deleted. */
  lemma ImageInsertionSpec(h: seq<ClipboardItem>, sameImage: string -> bool, storedPath: string, clock: string, now: string)
    requires !RecentImage(h, sameImage) && storedPath != []
    ensures |Only(h, ImageKind)| < MaxImageItems ==>
      ImageInsertion(h, sameImage, storedPath, clock, now) == ([ImageItem(storedPath, clock, now)] + h, [])
    ensures |Only(h, ImageKind)| == MaxImageItems ==>
      ImageInsertion(h, sameImage, storedPath, clock, now) == (h, [storedPath])
  {
    var x := ImageItem(storedPath, clock, now);
    ConsTail(x, h);
    assert Only([x] + h, ImageKind) == [x] + Only(h, ImageKind);
    if |Only(h, ImageKind)| < MaxImageItems {
      CappedUnderCap([x] + h, ImageKind, MaxImageItems);
    } else if |Only(h, ImageKind)| == MaxImageItems {
      FullKindFreezes(x, h, MaxImageItems);
    }
  }
}
