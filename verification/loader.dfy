/** `getRows`: the file's lines that start with the live marker 'E', each
    trimmed and stripped of its marker, decoded into records. Reading the
    file and `JSON.parse` are outside the model: the read's outcome and the
    decoder are parameters. */
module Loader {
  import opened Wrappers
  import opened Seqs
  import opened Text
  import opened Values

  /** The errors a `find` call surfaces to its caller. */
  datatype FindError =
    | IoError      // the file could not be read
    | DecodeError  // a live line is not a valid record
    | TypeError    // `$in` was evaluated with an operand that is not an array

  /** Outcome of reading the whole file as text. */
  datatype ReadResult = Contents(text: string) | ReadFailed

  type Record = map<string, Value>

  /** `isFirstLetter(letter)(s)`: `s[0]` is `letter`; an empty line has no
      first letter. */
  function IsFirstLetter(letter: char): string -> bool {
    s => |s| > 0 && s[0] == letter
  }

  /** `omitFirstLetter(s)`: `s.trim().substr(1)`. */
  function OmitFirstLetter(s: string): string {
    var t := Trim(s);
    if |t| == 0 then t else t[1..]
  }

  /** The live lines of the file, in file order. */
  function LiveLines(text: string): seq<string> {
    Filter(Split(text, '\n'), IsFirstLetter('E'))
  }

  /** What is handed to the decoder for each live line. */
  function Payloads(text: string): (ps: seq<string>)
    ensures |ps| == |LiveLines(text)|
  {
    var live := LiveLines(text);
    seq(|live|, i requires 0 <= i < |live| => OmitFirstLetter(live[i]))
  }

  /** `.map(toRow)`: decode every payload; the first one the decoder
      rejects aborts the whole load. Row `i` gets identity `i`. */
  function DecodeAll(ps: seq<string>, decode: string -> Option<Record>): (r: Result<seq<Row>, FindError>)
    ensures r.Success? <==> forall i :: 0 <= i < |ps| ==> decode(ps[i]).Some?
    ensures r.Failure? ==> r.error == DecodeError
    ensures r.Success? ==> |r.value| == |ps|
    ensures r.Success? ==> forall i :: 0 <= i < |ps| ==> r.value[i] == Row(i, decode(ps[i]).value)
  {
    if |ps| == 0 then Success([])
    else
      var last := |ps| - 1;
      match DecodeAll(ps[..last], decode)
      case Failure(e) => Failure(e)
      case Success(rows) =>
        match decode(ps[last])
        case None => Failure(DecodeError)
        case Some(fields) => Success(rows + [Row(last, fields)])
  }

  /** `getRows()`: a failed read and a failed decode are rethrown. */
  function GetRows(file: ReadResult, decode: string -> Option<Record>): (r: Result<seq<Row>, FindError>)
    ensures file.ReadFailed? ==> r == Failure(IoError)
    ensures file.Contents? ==>
      (r.Success? <==> forall i :: 0 <= i < |Payloads(file.text)| ==> decode(Payloads(file.text)[i]).Some?)
    ensures file.Contents? && r.Failure? ==> r.error == DecodeError
    ensures r.Success? ==> |r.value| == |LiveLines(file.text)|
    ensures r.Success? ==> forall i :: 0 <= i < |r.value| ==>
      r.value[i].id == i && r.value[i].fields == decode(Payloads(file.text)[i]).value
  {
    match file
    case ReadFailed => Failure(IoError)
    case Contents(text) => DecodeAll(Payloads(text), decode)
  }

  /** A line is kept exactly when it starts with 'E'; empty lines are
      dropped; kept lines stay in file order. */
  lemma LiveLinesExactly(text: string)
    ensures forall l :: l in LiveLines(text) <==> l in Split(text, '\n') && |l| > 0 && l[0] == 'E'
  {
  }

  /** Each payload is its live line without the marker and without trailing
      white space; white space right after the marker is kept. */
  lemma PayloadIsTail(text: string)
    ensures forall i :: 0 <= i < |Payloads(text)| ==>
      |LiveLines(text)[i]| > 0 && Payloads(text)[i] == TrimEnd(LiveLines(text)[i][1..])
  {
    var live := LiveLines(text);
    forall i | 0 <= i < |live|
      ensures |live[i]| > 0 && Payloads(text)[i] == TrimEnd(live[i][1..])
    {
      assert live[i] in live;
      var l := live[i];
      assert !IsSpace('E');
      TrimNonSpaceStart(l);
      TrimEndTail(l);
    }
  }

  /** Loaded rows are pairwise distinct objects. */
  lemma {:induction false} LoadedRowsDistinct(file: ReadResult, decode: string -> Option<Record>)
    requires GetRows(file, decode).Success?
    ensures NoDup(GetRows(file, decode).value)
  {
    var rows := GetRows(file, decode).value;
    var ps := Payloads(file.text);
    forall i, j | 0 <= i < j < |rows|
      ensures rows[i] != rows[j]
    {
      assert rows[i].id == i && rows[j].id == j;
    }
  }
}
