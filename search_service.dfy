/** The file lookup of ProcessingSearchRequestsService: expand a requested file name into
    its candidate names, pick the first plain file of the directory listing whose name
    matches a candidate ignoring case, send it to the chat, and do this once per requested
    file name. */
module SearchService {
  import opened JavaStrings

  datatype Option<T> = None | Some(value: T)

  /** A directory entry as Path::toFile shows it: its name and whether File::isFile holds. */
  datatype Entry = Entry(name: string, isFile: bool)

  /** What Files.list yields for the fixed directory: the entries in listing order, or
      an IOException. */
  datatype Listing = Listed(entries: seq<Entry>) | IoFailure(message: string)

  /** One call of sendDocument(chatId, file, replyToMessageId). */
  datatype Send = Send(chatId: string, file: Entry, replyToMessageId: int)

  /** How one searchFiles call ends: the file was found and sent (log.info), nothing
      matched (log.warn), the listing threw an IOException that was caught (log.error),
      or the name had no '.' so that substring threw an exception nobody catches. */
  datatype SearchOutcome =
    | Sent(file: Entry)
    | NotFound
    | ListingFailed(message: string)
    | BadFileName

  /** The extension table: each office extension and the one it is swapped for. */
  const ExtensionSwaps: map<string, string> :=
    map["doc" := "docx", "docx" := "doc", "xls" := "xlsx", "xlsx" := "xls"]

  // ---------------------------------------------------------------------------
  // Name-variant expansion
  // ---------------------------------------------------------------------------

  /** The split at the last '.': the base before it and the extension after it. */
  function SplitExtension(fileName: string): (parts: (string, string))
    requires '.' in fileName
    ensures parts.0 + "." + parts.1 == fileName
    ensures '.' !in parts.1
  {
    var i := LastIndexOf(fileName, '.');
    assert fileName == fileName[..i] + "." + fileName[i + 1..];
    (fileName[..i], fileName[i + 1..])
  }

  /** The split is the only one whose extension holds no '.'. */
  lemma SplitExtensionUnique(fileName: string, base: string, ext: string)
    requires base + "." + ext == fileName
    requires '.' !in ext
    ensures '.' in fileName
    ensures SplitExtension(fileName) == (base, ext)
  {
    assert fileName[|base|] == '.';
    var i := LastIndexOf(fileName, '.');
    forall j | |base| < j < |fileName| ensures fileName[j] != '.' {
      assert fileName[j] == ext[j - |base| - 1];
    }
    assert i == |base|;
    assert fileName[..i] == base;
    assert fileName[i + 1..] == ext;
  }

  /** The four rows of the extension table. */
  lemma ExtensionSwapsRows()
    ensures ExtensionSwaps.Keys == {"doc", "docx", "xls", "xlsx"}
    ensures ExtensionSwaps["doc"] == "docx" && ExtensionSwaps["docx"] == "doc"
    ensures ExtensionSwaps["xls"] == "xlsx" && ExtensionSwaps["xlsx"] == "xls"
  {
    assert "doc" != "docx" && "doc" != "xls" && "doc" != "xlsx";
    assert "docx" != "xls" && "docx" != "xlsx" && "xls" != "xlsx";
  }

  /** Appending "." and an extension is appending the dotted extension. */
  lemma DottedName(base: string, ext: string)
    ensures base + "." + ext == base + ("." + ext)
    ensures "." + "doc" == ".doc" && "." + "docx" == ".docx"
    ensures "." + "xls" == ".xls" && "." + "xlsx" == ".xlsx"
  {
  }

  /** The candidate names, defined by the extension table: the requested name, then the
      base with the swapped extension when the folded extension is in the table. */
  function Candidates(fileName: string): (names: seq<string>)
    requires '.' in fileName
    ensures 1 <= |names| <= 2
    ensures names[0] == fileName
  {
    var (base, ext) := SplitExtension(fileName);
    var key := Fold(ext);
    if key in ExtensionSwaps then [fileName, base + "." + ExtensionSwaps[key]] else [fileName]
  }

  /** prepareNamesWithAllExtensions: split at the last '.', add the name itself, then add
      at most one alternate name, testing the extension against each office format in
      turn. */
  method PrepareNamesWithAllExtensions(fileName: string) returns (possibleFileNames: seq<string>)
    requires '.' in fileName
    ensures possibleFileNames == Candidates(fileName)
  {
    var dot := LastIndexOf(fileName, '.');
    var baseFileName := fileName[..dot];
    var fileExtension := fileName[dot + 1..];
    assert (baseFileName, fileExtension) == SplitExtension(fileName);

    possibleFileNames := [];
    possibleFileNames := possibleFileNames + [fileName];

    if EqualsIgnoreCase(fileExtension, "doc") {
      possibleFileNames := possibleFileNames + [baseFileName + ".docx"];
      CandidatesTableDoc(fileName);
    } else if EqualsIgnoreCase(fileExtension, "docx") {
      possibleFileNames := possibleFileNames + [baseFileName + ".doc"];
      CandidatesTableDocx(fileName);
    } else if EqualsIgnoreCase(fileExtension, "xls") {
      possibleFileNames := possibleFileNames + [baseFileName + ".xlsx"];
      CandidatesTableXls(fileName);
    } else if EqualsIgnoreCase(fileExtension, "xlsx") {
      possibleFileNames := possibleFileNames + [baseFileName + ".xls"];
      CandidatesTableXlsx(fileName);
    } else {
      CandidatesTableOther(fileName);
    }
  }

  /** One row of the table: an extension equal, ignoring case, to a key of the table
      gets the alternate the table gives for that key. */
  lemma CandidatesRow(fileName: string, key: string)
    requires '.' in fileName
    requires key in ExtensionSwaps
    requires EqualsIgnoreCase(SplitExtension(fileName).1, key)
    ensures Candidates(fileName) == [fileName, SplitExtension(fileName).0 + "." + ExtensionSwaps[key]]
  {
    ExtensionSwapsRows();
    assert IsLowerAscii(key);
    EqualsIgnoreCaseLower(SplitExtension(fileName).1, key);
  }

  /** The table row for doc: the alternate name is the base with .docx. */
  lemma CandidatesTableDoc(fileName: string)
    requires '.' in fileName
    requires EqualsIgnoreCase(SplitExtension(fileName).1, "doc")
    ensures Candidates(fileName) == [fileName, SplitExtension(fileName).0 + ".docx"]
  {
    ExtensionSwapsRows();
    CandidatesRow(fileName, "doc");
    DottedName(SplitExtension(fileName).0, "docx");
  }

  /** The table row for docx: the alternate name is the base with .doc. */
  lemma CandidatesTableDocx(fileName: string)
    requires '.' in fileName
    requires EqualsIgnoreCase(SplitExtension(fileName).1, "docx")
    ensures Candidates(fileName) == [fileName, SplitExtension(fileName).0 + ".doc"]
  {
    ExtensionSwapsRows();
    CandidatesRow(fileName, "docx");
    DottedName(SplitExtension(fileName).0, "doc");
  }

  /** The table row for xls: the alternate name is the base with .xlsx. */
  lemma CandidatesTableXls(fileName: string)
    requires '.' in fileName
    requires EqualsIgnoreCase(SplitExtension(fileName).1, "xls")
    ensures Candidates(fileName) == [fileName, SplitExtension(fileName).0 + ".xlsx"]
  {
    ExtensionSwapsRows();
    CandidatesRow(fileName, "xls");
    DottedName(SplitExtension(fileName).0, "xlsx");
  }

  /** The table row for xlsx: the alternate name is the base with .xls. */
  lemma CandidatesTableXlsx(fileName: string)
    requires '.' in fileName
    requires EqualsIgnoreCase(SplitExtension(fileName).1, "xlsx")
    ensures Candidates(fileName) == [fileName, SplitExtension(fileName).0 + ".xls"]
  {
    ExtensionSwapsRows();
    CandidatesRow(fileName, "xlsx");
    DottedName(SplitExtension(fileName).0, "xls");
  }

  /** Any other extension, an empty one included, adds no alternate name. */
  lemma CandidatesTableOther(fileName: string)
    requires '.' in fileName
    requires !EqualsIgnoreCase(SplitExtension(fileName).1, "doc")
    requires !EqualsIgnoreCase(SplitExtension(fileName).1, "docx")
    requires !EqualsIgnoreCase(SplitExtension(fileName).1, "xls")
    requires !EqualsIgnoreCase(SplitExtension(fileName).1, "xlsx")
    ensures Candidates(fileName) == [fileName]
  {
    var ext := SplitExtension(fileName).1;
    ExtensionSwapsRows();
    EqualsIgnoreCaseLower(ext, "doc");
    EqualsIgnoreCaseLower(ext, "docx");
    EqualsIgnoreCaseLower(ext, "xls");
    EqualsIgnoreCaseLower(ext, "xlsx");
  }

  /** The alternate name keeps the base and carries a lower-case office extension,
      whatever the case of the requested extension. */
  lemma AlternateIsLowercase(fileName: string)
    requires '.' in fileName
    requires |Candidates(fileName)| == 2
    ensures '.' in Candidates(fileName)[1]
    ensures SplitExtension(Candidates(fileName)[1]).0 == SplitExtension(fileName).0
    ensures IsLowerAscii(SplitExtension(Candidates(fileName)[1]).1)
    ensures SplitExtension(Candidates(fileName)[1]).1 in ExtensionSwaps
  {
    var (base, ext) := SplitExtension(fileName);
    var alt := ExtensionSwaps[Fold(ext)];
    assert alt in ExtensionSwaps && IsLowerAscii(alt) && '.' !in alt;
    SplitExtensionUnique(Candidates(fileName)[1], base, alt);
  }

  /** The table is an involution on lower-case extensions without a '.'. */
  lemma SwapInvolution(key: string)
    requires key in ExtensionSwaps
    ensures IsLowerAscii(key) && '.' !in key
    ensures ExtensionSwaps[key] in ExtensionSwaps
    ensures ExtensionSwaps[ExtensionSwaps[key]] == key
  {
    ExtensionSwapsRows();
  }

  /** Folding the extension does not change the name up to case. */
  lemma FoldedExtension(base: string, ext: string)
    ensures EqualsIgnoreCase(base + "." + Fold(ext), base + "." + ext)
  {
    FoldAppend(base + ".", Fold(ext));
    FoldAppend(base + ".", ext);
    FoldIsLower(ext);
  }

  /** The swap goes both ways: requesting the alternate name yields, as its own
      alternate, the requested name up to case. */
  lemma SwapRoundTrip(fileName: string)
    requires '.' in fileName
    requires |Candidates(fileName)| == 2
    ensures '.' in Candidates(fileName)[1]
    ensures |Candidates(Candidates(fileName)[1])| == 2
    ensures EqualsIgnoreCase(Candidates(Candidates(fileName)[1])[1], fileName)
  {
    var (base, ext) := SplitExtension(fileName);
    var key := Fold(ext);
    assert key in ExtensionSwaps;
    var alt := ExtensionSwaps[key];
    SwapInvolution(key);
    SwapInvolution(alt);
    var name := Candidates(fileName)[1];
    assert name == base + "." + alt;
    SplitExtensionUnique(name, base, alt);
    FoldLower(alt);
    assert Candidates(name) == [name, base + "." + key];
    FoldedExtension(base, ext);
  }

  // ---------------------------------------------------------------------------
  // First-match selection
  // ---------------------------------------------------------------------------

  /** possibleFileNames.stream().anyMatch(name::equalsIgnoreCase). */
  function AnyMatch(name: string, candidates: seq<string>): (r: bool)
    ensures r <==> exists i :: 0 <= i < |candidates| && EqualsIgnoreCase(name, candidates[i])
  {
    if candidates == [] then false
    else EqualsIgnoreCase(name, candidates[0]) || AnyMatch(name, candidates[1..])
  }

  /** The two stream filters: a plain file whose name matches some candidate. */
  predicate Selectable(e: Entry, candidates: seq<string>)
    ensures Selectable(e, candidates) <==>
      e.isFile && exists i :: 0 <= i < |candidates| && EqualsIgnoreCase(e.name, candidates[i])
  {
    e.isFile && AnyMatch(e.name, candidates)
  }

  /** Entry i passes the filters and no earlier entry does. */
  ghost predicate IsFirstSelectable(entries: seq<Entry>, i: int, candidates: seq<string>) {
    && 0 <= i < |entries|
    && Selectable(entries[i], candidates)
    && forall j :: 0 <= j < i ==> !Selectable(entries[j], candidates)
  }

  /** The filter/findFirst pipeline over the listing. */
  function FindFirst(entries: seq<Entry>, candidates: seq<string>): (r: Option<Entry>)
    ensures r.None? <==> forall i :: 0 <= i < |entries| ==> !Selectable(entries[i], candidates)
    ensures r.Some? ==> r.value in entries && Selectable(r.value, candidates)
    ensures forall i :: IsFirstSelectable(entries, i, candidates) ==> r == Some(entries[i])
  {
    if entries == [] then None
    else if Selectable(entries[0], candidates) then Some(entries[0])
    else
      var rest := FindFirst(entries[1..], candidates);
      assert forall i :: IsFirstSelectable(entries, i, candidates) ==>
        i > 0 && IsFirstSelectable(entries[1..], i - 1, candidates);
      rest
  }

  /** When some entry passes the filters, a first one does, at or before it. */
  lemma {:induction false} FirstSelectableExists(entries: seq<Entry>, candidates: seq<string>, i: int)
    requires 0 <= i < |entries|
    requires Selectable(entries[i], candidates)
    ensures exists k :: 0 <= k <= i && IsFirstSelectable(entries, k, candidates)
  {
    if Selectable(entries[0], candidates) {
      assert IsFirstSelectable(entries, 0, candidates);
    } else {
      FirstSelectableExists(entries[1..], candidates, i - 1);
      var k :| 0 <= k <= i - 1 && IsFirstSelectable(entries[1..], k, candidates);
      assert IsFirstSelectable(entries, k + 1, candidates);
    }
  }

  /** What findFirst picks, if anything, is the first entry that passes the filters. */
  lemma FindFirstIsFirst(entries: seq<Entry>, candidates: seq<string>)
    ensures FindFirst(entries, candidates).Some? ==>
              exists i :: IsFirstSelectable(entries, i, candidates)
                && entries[i] == FindFirst(entries, candidates).value
  {
    if i :| 0 <= i < |entries| && Selectable(entries[i], candidates) {
      FirstSelectableExists(entries, candidates, i);
    }
  }

  // ---------------------------------------------------------------------------
  // One search
  // ---------------------------------------------------------------------------

  /** The outcome of searchFiles for one requested name and one directory listing. */
  function Search(fileName: string, listing: Listing): (outcome: SearchOutcome)
    ensures outcome.BadFileName? <==> '.' !in fileName
    ensures outcome.ListingFailed? <==> '.' in fileName && listing.IoFailure?
    ensures outcome.Sent? ==> listing.Listed? && outcome.file in listing.entries && outcome.file.isFile
  {
    if '.' !in fileName then BadFileName
    else
      match listing
      case IoFailure(message) => ListingFailed(message)
      case Listed(entries) =>
        match FindFirst(entries, Candidates(fileName))
        case Some(file) => Sent(file)
        case None => NotFound
  }

  /** The branches of a search: a name without '.' throws; a listing failure is
      reported; otherwise the search reports "not found" exactly when no plain file
      matches a candidate, and sends the first one that does. */
  lemma SearchBranches(fileName: string, listing: Listing)
    ensures '.' !in fileName ==> Search(fileName, listing) == BadFileName
    ensures '.' in fileName && listing.IoFailure? ==>
      Search(fileName, listing) == ListingFailed(listing.message)
    ensures '.' in fileName && listing.Listed? ==>
      && (Search(fileName, listing).Sent? || Search(fileName, listing).NotFound?)
      && (Search(fileName, listing).NotFound? <==>
            forall i :: 0 <= i < |listing.entries| ==> !Selectable(listing.entries[i], Candidates(fileName)))
      && (forall i :: IsFirstSelectable(listing.entries, i, Candidates(fileName)) ==>
            Search(fileName, listing) == Sent(listing.entries[i]))
  {
  }

  /** The sendDocument calls a search outcome stands for. */
  function Dispatched(outcome: SearchOutcome, chatId: string, replyToMessageId: int): (sends: seq<Send>)
    ensures |sends| <= 1
    ensures sends != [] <==> outcome.Sent?
    ensures sends != [] ==>
              sends[0].file == outcome.file && sends[0].chatId == chatId
              && sends[0].replyToMessageId == replyToMessageId
  {
    if outcome.Sent? then [Send(chatId, outcome.file, replyToMessageId)] else []
  }

  /** searchFiles: expand the name, list the directory, select the first match, and send
      it or report that nothing was found; an IOException from the listing is absorbed. */
  method SearchFiles(fileName: string, listing: Listing, chatId: string, replyToMessageId: int)
    returns (outcome: SearchOutcome, sent: seq<Send>)
    ensures outcome == Search(fileName, listing)
    ensures sent == Dispatched(outcome, chatId, replyToMessageId)
  {
    if '.' !in fileName {
      // substring(0, lastIndexOf('.')) with lastIndexOf == -1 throws before the listing
      return BadFileName, [];
    }
    var possibleFileNames := PrepareNamesWithAllExtensions(fileName);
    match listing {
      case IoFailure(message) =>
        outcome, sent := ListingFailed(message), [];
      case Listed(entries) =>
        var matchingFile := FindFirst(entries, possibleFileNames);
        if matchingFile.Some? {
          sent := [Send(chatId, matchingFile.value, replyToMessageId)];
          outcome := Sent(matchingFile.value);
        } else {
          outcome, sent := NotFound, [];
        }
    }
  }

  /** A search sends at most one document, and sends one exactly when the name has a
      '.', the directory could be listed and some plain file in it matches a candidate;
      the document goes to the given chat, as a reply to the given message. */
  lemma SendsExactlyOnMatch(fileName: string, listing: Listing, chatId: string, replyToMessageId: int)
    ensures |Dispatched(Search(fileName, listing), chatId, replyToMessageId)| <= 1
    ensures Dispatched(Search(fileName, listing), chatId, replyToMessageId) != [] <==>
      && '.' in fileName
      && listing.Listed?
      && exists i :: 0 <= i < |listing.entries| && Selectable(listing.entries[i], Candidates(fileName))
    ensures Search(fileName, listing).Sent? ==>
      Dispatched(Search(fileName, listing), chatId, replyToMessageId)
        == [Send(chatId, Search(fileName, listing).file, replyToMessageId)]
  {
    if '.' in fileName && listing.Listed? {
      if i :| 0 <= i < |listing.entries| && Selectable(listing.entries[i], Candidates(fileName)) {
        FirstSelectableExists(listing.entries, Candidates(fileName), i);
      }
    }
  }

  /** A search that sends, sends the first plain file that matches a candidate. */
  lemma SentIsFirstMatch(fileName: string, entries: seq<Entry>)
    ensures Search(fileName, Listed(entries)).Sent? ==>
              && '.' in fileName
              && exists i :: IsFirstSelectable(entries, i, Candidates(fileName))
                   && entries[i] == Search(fileName, Listed(entries)).file
  {
    if '.' in fileName {
      FindFirstIsFirst(entries, Candidates(fileName));
    }
  }

  /** When exactly one entry passes the filters, the search sends exactly that entry. */
  lemma UniqueMatchIsSent(fileName: string, entries: seq<Entry>, i: int, chatId: string, replyToMessageId: int)
    requires '.' in fileName
    requires 0 <= i < |entries| && Selectable(entries[i], Candidates(fileName))
    requires forall j :: 0 <= j < |entries| && j != i ==> !Selectable(entries[j], Candidates(fileName))
    ensures Search(fileName, Listed(entries)) == Sent(entries[i])
    ensures Dispatched(Search(fileName, Listed(entries)), chatId, replyToMessageId)
              == [Send(chatId, entries[i], replyToMessageId)]
  {
    assert IsFirstSelectable(entries, i, Candidates(fileName));
  }

  /** When the listing holds only a plain file whose name is the requested one up to
      case, that file is sent. */
  lemma SingleMatchingFileIsSent(fileName: string, file: Entry)
    requires '.' in fileName
    requires file.isFile && EqualsIgnoreCase(file.name, fileName)
    ensures Search(fileName, Listed([file])) == Sent(file)
  {
    assert IsFirstSelectable([file], 0, Candidates(fileName));
  }

  // ---------------------------------------------------------------------------
  // One search per requested file name
  // ---------------------------------------------------------------------------

  /** order is an iteration order of the map: as many names as keys, each a key, none
      twice (so every key comes exactly once, see EveryKeyEnumerated). */
  predicate EnumeratesKeys(order: seq<string>, filesData: map<string, string>) {
    && |order| == |filesData|
    && (forall i :: 0 <= i < |order| ==> order[i] in filesData)
    && (forall i, j :: 0 <= i < j < |order| ==> order[i] != order[j])
  }

  /** The outcomes of searching the keys in turn, listing i serving search i: every key
      is searched until one throws, and the exception ends the loop. */
  function Outcomes(keys: seq<string>, listings: seq<Listing>): (outcomes: seq<SearchOutcome>)
    requires |listings| == |keys|
    ensures |outcomes| <= |keys|
  {
    if keys == [] then []
    else
      var outcome := Search(keys[0], listings[0]);
      if outcome.BadFileName? then [outcome]
      else [outcome] + Outcomes(keys[1..], listings[1..])
  }

  /** The keys are searched in order, one search each, until a search throws: only the
      last search can throw, and the run covers every key unless one did. */
  lemma {:induction false} OutcomesShape(keys: seq<string>, listings: seq<Listing>)
    requires |listings| == |keys|
    ensures forall i :: 0 <= i < |Outcomes(keys, listings)| ==>
              Outcomes(keys, listings)[i] == Search(keys[i], listings[i])
    ensures forall i :: 0 <= i < |Outcomes(keys, listings)| - 1 ==> !Outcomes(keys, listings)[i].BadFileName?
    ensures || |Outcomes(keys, listings)| == |keys|
            || (Outcomes(keys, listings) != []
                && Outcomes(keys, listings)[|Outcomes(keys, listings)| - 1].BadFileName?)
  {
    if keys != [] && !Search(keys[0], listings[0]).BadFileName? {
      OutcomesShape(keys[1..], listings[1..]);
    }
  }

  /** The sendDocument calls of a run of searches, in order. */
  function SendsOf(outcomes: seq<SearchOutcome>, chatId: string, replyToMessageId: int): (sends: seq<Send>)
    ensures |sends| <= |outcomes|
  {
    if outcomes == [] then []
    else SendsOf(outcomes[..|outcomes| - 1], chatId, replyToMessageId)
         + Dispatched(outcomes[|outcomes| - 1], chatId, replyToMessageId)
  }

  /** outcomes are the first searches of the keys in turn, listing k serving search k,
      with only the last one possibly throwing. */
  ghost predicate SearchedInTurn(keys: seq<string>, listings: seq<Listing>, outcomes: seq<SearchOutcome>)
    requires |listings| == |keys|
  {
    && |outcomes| <= |keys|
    && (forall k :: 0 <= k < |outcomes| ==> outcomes[k] == Search(keys[k], listings[k]))
    && (forall k :: 0 <= k < |outcomes| - 1 ==> !outcomes[k].BadFileName?)
  }

  /** One more search, after searches that did not throw, keeps the run in turn. */
  lemma SearchedInTurnStep(keys: seq<string>, listings: seq<Listing>, outcomes: seq<SearchOutcome>)
    requires |listings| == |keys|
    requires SearchedInTurn(keys, listings, outcomes)
    requires |outcomes| < |keys|
    requires forall k :: 0 <= k < |outcomes| ==> !outcomes[k].BadFileName?
    ensures SearchedInTurn(keys, listings, outcomes + [Search(keys[|outcomes|], listings[|outcomes|])])
  {
  }

  /** A run in turn that covers every key, or ends with the search that threw, is the
      run of the keys. */
  lemma {:induction false} OutcomesUnique(keys: seq<string>, listings: seq<Listing>, outcomes: seq<SearchOutcome>)
    requires |listings| == |keys|
    requires SearchedInTurn(keys, listings, outcomes)
    requires |outcomes| == |keys| || (outcomes != [] && outcomes[|outcomes| - 1].BadFileName?)
    ensures outcomes == Outcomes(keys, listings)
  {
    if keys != [] {
      assert outcomes[0] == Search(keys[0], listings[0]);
      if !outcomes[0].BadFileName? {
        OutcomesUnique(keys[1..], listings[1..], outcomes[1..]);
      }
    }
  }

  /** preparingDataForDownloadingFiles: one searchFiles call per key of filesData, in the
      map's iteration order; the values are never read. */
  method PreparingDataForDownloadingFiles(
    filesData: map<string, string>, order: seq<string>, listings: seq<Listing>,
    chatId: string, replyToMessageId: int)
    returns (outcomes: seq<SearchOutcome>, sent: seq<Send>)
    requires EnumeratesKeys(order, filesData)
    requires |listings| == |order|
    ensures outcomes == Outcomes(order, listings)
    ensures sent == SendsOf(outcomes, chatId, replyToMessageId)
  {
    outcomes, sent := [], [];
    var i := 0;
    while i < |order|
      invariant 0 <= i <= |order|
      invariant |outcomes| == i
      invariant SearchedInTurn(order, listings, outcomes)
      invariant forall k :: 0 <= k < i ==> !outcomes[k].BadFileName?
      invariant sent == SendsOf(outcomes, chatId, replyToMessageId)
    {
      var outcome, sentNow := SearchFiles(order[i], listings[i], chatId, replyToMessageId);
      SearchedInTurnStep(order, listings, outcomes);
      assert (outcomes + [outcome])[..|outcomes|] == outcomes;
      outcomes, sent := outcomes + [outcome], sent + sentNow;
      if outcome.BadFileName? {
        // the exception leaves the loop and the method
        OutcomesUnique(order, listings, outcomes);
        return;
      }
      i := i + 1;
    }
    OutcomesUnique(order, listings, outcomes);
  }

  /** Distinct elements: as many as the set they form. */
  lemma {:induction false} DistinctCardinality(s: seq<string>)
    requires forall i, j :: 0 <= i < j < |s| ==> s[i] != s[j]
    ensures |set k | k in s| == |s|
  {
    if s != [] {
      DistinctCardinality(s[1..]);
      assert (set k | k in s) == (set k | k in s[1..]) + {s[0]};
      assert s[0] !in s[1..];
    }
  }

  /** A subset as large as its superset is the superset. */
  lemma SubsetOfSameSize(a: set<string>, b: set<string>)
    requires a <= b && |a| == |b|
    ensures a == b
  {
    if k :| k in b && k !in a {
      assert a <= b - {k};
      SubsetCardinality(a, b - {k});
    }
  }

  lemma {:induction false} SubsetCardinality(a: set<string>, b: set<string>)
    requires a <= b
    ensures |a| <= |b|
    decreases |b|
  {
    if a != {} {
      var x :| x in a;
      SubsetCardinality(a - {x}, b - {x});
    }
  }

  /** An iteration order visits every key of the map. */
  lemma EveryKeyEnumerated(order: seq<string>, filesData: map<string, string>)
    requires EnumeratesKeys(order, filesData)
    ensures forall k :: k in filesData <==> k in order
  {
    var visited := set k | k in order;
    DistinctCardinality(order);
    assert visited <= filesData.Keys;
    SubsetOfSameSize(visited, filesData.Keys);
  }

  /** When every key has a '.', every key is searched, in order. */
  lemma {:induction false} AllKeysSearched(keys: seq<string>, listings: seq<Listing>)
    requires |listings| == |keys|
    requires forall i :: 0 <= i < |keys| ==> '.' in keys[i]
    ensures |Outcomes(keys, listings)| == |keys|
    ensures forall i :: 0 <= i < |keys| ==> Outcomes(keys, listings)[i] == Search(keys[i], listings[i])
  {
    if keys != [] {
      assert !Search(keys[0], listings[0]).BadFileName?;
      AllKeysSearched(keys[1..], listings[1..]);
    }
  }

  /** When every key has an extension, a map with n keys gets exactly n searches, and at
      most n documents are sent. */
  lemma SearchesPerKey(filesData: map<string, string>, order: seq<string>, listings: seq<Listing>,
                       chatId: string, replyToMessageId: int)
    requires EnumeratesKeys(order, filesData)
    requires |listings| == |order|
    requires forall k :: k in filesData ==> '.' in k
    ensures |Outcomes(order, listings)| == |filesData|
    ensures |SendsOf(Outcomes(order, listings), chatId, replyToMessageId)| <= |filesData|
  {
    AllKeysSearched(order, listings);
  }
}
