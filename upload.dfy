/**
 * The upload handler: the checks it makes on a request, in their fixed
 * order, the message each refusal returns, and the handler itself, which
 * runs the mapping only for a request that passes every check.
 */
module Upload {
  import Text
  import opened FileNames
  import opened CellMapper

  /**
   * What the handler looks at in a request: whether the form has a
   * `csv_file` field, the file name sent with it, and whether the template
   * file exists when the request is handled.
   */
  datatype Request = Request(hasFile: bool, filename: string, templateExists: bool)

  /** The outcome of the checks: a refusal, or go ahead with the mapping. */
  datatype Decision = NoFile | NoSelection | BadExtension | NoTemplate | Proceed

  /** The checks as the handler makes them, returning at the first that fails. */
  function Decide(req: Request): Decision {
    if !req.hasFile then NoFile
    else if req.filename == "" then NoSelection
    else if !AllowedFile(req.filename) then BadExtension
    else if !req.templateExists then NoTemplate
    else Proceed
  }

  /** A check: whether it passes, and the refusal it gives when it does not. */
  datatype Check = Check(passes: bool, refusal: Decision)

  /** The checks in the order they are made. */
  function Checks(req: Request): seq<Check> {
    [ Check(req.hasFile, NoFile),
      Check(req.filename != "", NoSelection),
      Check(AllowedFile(req.filename), BadExtension),
      Check(req.templateExists, NoTemplate) ]
  }

  /** The refusal of the earliest failing check, or Proceed when none fails. */
  function FirstFailure(checks: seq<Check>): Decision {
    if checks == [] then Proceed
    else if !checks[0].passes then checks[0].refusal
    else FirstFailure(checks[1..])
  }

  /** The handler's chain of early returns is "the earliest failing check decides". */
  lemma DecideIsFirstFailure(req: Request)
    ensures Decide(req) == FirstFailure(Checks(req))
  {
    var c := Checks(req);
    assert c[3..][1..] == c[4..] == [];
    assert c[2..][1..] == c[3..] && c[1..][1..] == c[2..];
    assert FirstFailure(c[3..]) == if req.templateExists then Proceed else NoTemplate;
    assert FirstFailure(c[2..]) == if AllowedFile(req.filename) then FirstFailure(c[3..]) else BadExtension;
    assert FirstFailure(c[1..]) == if req.filename != "" then FirstFailure(c[2..]) else NoSelection;
  }

  /**
   * Each outcome holds exactly when every earlier check passed and its own
   * check failed; only a request passing all four proceeds.
   */
  lemma DecideIff(req: Request)
    ensures Decide(req) == NoFile <==> !req.hasFile
    ensures Decide(req) == NoSelection <==> req.hasFile && req.filename == ""
    ensures Decide(req) == BadExtension <==>
      req.hasFile && req.filename != "" && !AllowedFile(req.filename)
    ensures Decide(req) == NoTemplate <==>
      req.hasFile && AllowedFile(req.filename) && !req.templateExists
    ensures Decide(req) == Proceed <==>
      req.hasFile && AllowedFile(req.filename) && req.templateExists
  {
    AllowedFileIffCsvSuffix(req.filename);
  }

  /**
   * An empty file name would fail the extension check too; checking it first
   * only gives it its own message.
   */
  lemma EmptyNameFailsBothChecks(req: Request)
    requires req.hasFile && req.filename == ""
    ensures Decide(req) == NoSelection
    ensures !AllowedFile(req.filename)
  {
    AllowedFileIffCsvSuffix("");
  }

  /** A missing template is only reported for an upload with an accepted name. */
  lemma TemplateCheckedLast(req: Request)
    requires !req.templateExists
    ensures Decide(req) == NoTemplate <==> req.hasFile && AllowedFile(req.filename)
    ensures Decide(req) != Proceed
  {
    DecideIff(req);
  }

  /** Worked examples of the checks; a request without a file field is refused whatever its other fields. */
  lemma DecideExamples(name: string, t: bool)
    ensures Decide(Request(false, name, t)) == NoFile
    ensures Decide(Request(true, "data.txt", true)) == BadExtension
    ensures Decide(Request(true, "DATA.CSV", false)) == NoTemplate
    ensures Decide(Request(true, "data.csv", true)) == Proceed
  {
    RejectsTxt();
    AcceptsUpperCase();
    AcceptsDataCsv();
  }

  /**
   * A name with a directory part is an ordinary accepted name: it passes
   * every check, and the output name keeps the directory part.
   */
  lemma SlashNameProceeds()
    ensures Decide(Request(true, "sub/data.csv", true)) == Proceed
    ensures OutputName("sub/data.csv") == "filled_" + "sub/data" + ".xlsx"
  {
    var f := "sub/data.csv";
    AllowedFileIffCsvSuffix(f);
    AllowedOutputName(f);
    Text.RFindIsLast(f, '/');
    assert f[3] == '/';
    var base := f[Text.RFind(f, '/') + 1..|f| - 4];
    assert base[0] == 'd';
    assert f[..|f| - 4] == "sub/data";
  }

  /** The message returned for each refusal. */
  function Message(d: Decision): (m: string)
    requires d != Proceed
    ensures |m| > 2 && m[..2] == "\U{274C} "
  {
    match d
    case NoFile => "\U{274C} No file uploaded"
    case NoSelection => "\U{274C} No file selected"
    case BadExtension => "\U{274C} Only CSV files are allowed"
    case NoTemplate => "\U{274C} Template file not found"
  }

  /** The four refusals have four different messages. */
  lemma MessagesDistinct(d: Decision, d': Decision)
    requires d != Proceed && d' != Proceed && d != d'
    ensures Message(d) != Message(d')
  {
  }

  /** What the handler sends back: a refusal message, or the filled workbook as a download. */
  datatype Response = Refused(message: string) | Download(name: string)

  /**
   * `upload_csv` for a request whose CSV has been parsed into `table` and
   * whose template sheet is `ws`. The uploaded file is saved once the name
   * is accepted, before the template is looked for; the sheet changes only
   * for a request that passes every check, and then the download carries
   * the derived output name.
   */
  method HandleUpload(req: Request, table: Table, ws: Worksheet) returns (resp: Response, uploadSaved: bool)
    modifies ws
    ensures uploadSaved <==> Decide(req) == NoTemplate || Decide(req) == Proceed
    ensures Decide(req) == Proceed ==>
      resp == Download(OutputName(req.filename)) && ws.cells == Filled(old(ws.cells), table)
    ensures Decide(req) != Proceed ==>
      resp == Refused(Message(Decide(req))) && ws.cells == old(ws.cells)
  {
    uploadSaved := false;
    if !req.hasFile {
      return Refused(Message(NoFile)), false;
    }
    if req.filename == "" {
      return Refused(Message(NoSelection)), false;
    }
    if !AllowedFile(req.filename) {
      return Refused(Message(BadExtension)), false;
    }
    uploadSaved := true;
    if !req.templateExists {
      return Refused(Message(NoTemplate)), true;
    }
    ws.FillFrom(table);
    resp := Download(OutputName(req.filename));
  }
}
