/**
 * TextExtractor: the output path of a PDF, the decision to extract or skip,
 * the page loop, the word counter shared by all extractors and the write of
 * the text file. The PDF library, the file and standard input are parameters:
 * a document is unreadable or has an encrypted flag and its page texts, the
 * output file is an object with a presence flag and a content, and the answer
 * to the overwrite prompt is a string given in advance.
 */
module TextExtraction {
  import opened Strings
  import opened Config
  import opened Tokenizer

  /** generateTextPath: the extension removed and `.txt` appended. */
  function GenerateTextPath(p: string): string {
    RemoveExtension(p) + ".txt"
  }

  /** The output path always has the extension `txt` and the base of the input. */
  lemma TextPathExtension(p: string)
    ensures GetExtension(GenerateTextPath(p)) == "txt"
    ensures RemoveExtension(GenerateTextPath(p)) == RemoveExtension(p)
  {
    assert GenerateTextPath(p) == RemoveExtension(p) + "." + "txt";
    ExtensionOf(RemoveExtension(p), "txt");
  }

  /** The directory part of the input, up to its last separator, is kept. */
  lemma TextPathKeepsDirectory(p: string)
    ensures var d := IndexOfLastSeparator(p) + 1;
      d <= |GenerateTextPath(p)| && GenerateTextPath(p)[..d] == p[..d]
  {
    var d := IndexOfLastSeparator(p) + 1;
    var i := IndexOfExtension(p);
    var base := RemoveExtension(p);
    assert i == -1 || d <= i;
    assert d <= |base| && base[..d] == p[..d];
    assert GenerateTextPath(p)[..d] == base[..d];
  }

  /** The extension after the last dot is replaced by `txt`. */
  lemma TextPathReplacesExtension(base: string, ext: string)
    requires '.' !in ext && '/' !in ext && '\\' !in ext
    ensures GenerateTextPath(base + "." + ext) == base + ".txt"
  {
    ExtensionOf(base, ext);
  }

  /** A path without extension gets `.txt` appended as a whole. */
  lemma TextPathWithoutExtension(p: string)
    requires IndexOfExtension(p) == -1
    ensures GenerateTextPath(p) == p + ".txt"
  {
  }

  /** What the PDF library yields for a path. */
  datatype Pdf = Unreadable | Document(encrypted: bool, pages: seq<string>)

  /** Which way one run of extractText ends. */
  datatype Extraction =
    | OpenFailed
    | SkippedEncrypted
    | SkippedExisting
    | SkippedDeclined
    | SkippedUnrecognised
    | Extracted(text: string, written: bool)

  /** The page texts joined by `sep`, with no separator after the last page. */
  function Join(pages: seq<string>, sep: string): string
    decreases |pages|
  {
    if |pages| == 0 then ""
    else if |pages| == 1 then pages[0]
    else Join(pages[..|pages| - 1], sep) + sep + pages[|pages| - 1]
  }

  /** Java's Character.toUpperCase on ASCII letters and the dotless i. */
  function UpperCase(c: char): char {
    if 'a' <= c <= 'z' then (c as int - 32) as char
    else if c == '\U{0131}' then 'I'
    else c
  }

  /** Java's Character.toLowerCase on ASCII letters and the dotted capital I. */
  function LowerCase(c: char): char {
    if 'A' <= c <= 'Z' then (c as int + 32) as char
    else if c == '\U{0130}' then 'i'
    else c
  }

  /** String.equalsIgnoreCase: the same length, and each pair of characters equal after case folding. */
  predicate EqualsIgnoreCase(s: string, t: string) {
    |s| == |t| &&
    forall i :: 0 <= i < |s| ==>
      s[i] == t[i] || UpperCase(s[i]) == UpperCase(t[i]) ||
      LowerCase(UpperCase(s[i])) == LowerCase(UpperCase(t[i]))
  }

  /** The answer `I` (igen, yes) to the overwrite prompt. */
  predicate IsYes(answer: string) {
    EqualsIgnoreCase(answer, "I")
  }

  /** The answer `N` (nem, no) to the overwrite prompt. */
  predicate IsNo(answer: string) {
    EqualsIgnoreCase(answer, "N")
  }

  /** The answers taken as yes: `I`, `i` and the Turkish dotted and dotless i. */
  lemma YesAnswers(answer: string)
    ensures IsYes(answer) <==> answer in {"I", "i", "\U{0130}", "\U{0131}"}
  {
    if |answer| == 1 {
      var c := answer[0];
      assert answer == [c];
      assert IsYes(answer) <==> c == 'I' || UpperCase(c) == 'I' || LowerCase(UpperCase(c)) == 'i';
    }
  }

  /** The answers taken as no: `N` and `n`. */
  lemma NoAnswers(answer: string)
    ensures IsNo(answer) <==> answer in {"N", "n"}
  {
    if |answer| == 1 {
      var c := answer[0];
      assert answer == [c];
      assert IsNo(answer) <==> c == 'N' || UpperCase(c) == 'N' || LowerCase(UpperCase(c)) == 'n';
    }
  }

  /** The overwrite prompt is shown: a readable, unencrypted PDF whose output exists under policy select. */
  predicate Prompts(pdf: Pdf, overwrite: string, outputExists: bool) {
    pdf.Document? && !pdf.encrypted && outputExists &&
    overwrite != OverwriteAll && overwrite != OverwriteNone
  }

  /** How extractText ends for the given document, policy, output file, answer and write result. */
  function Expected(pdf: Pdf, overwrite: string, outputExists: bool, answer: string,
                    lineSeparator: string, writeFails: bool): Extraction
  {
    match pdf
    case Unreadable => OpenFailed
    case Document(encrypted, pages) =>
      if encrypted then SkippedEncrypted
      else if outputExists && overwrite == OverwriteNone then SkippedExisting
      else if Prompts(pdf, overwrite, outputExists) && !IsYes(answer) then
        if IsNo(answer) then SkippedDeclined else SkippedUnrecognised
      else Extracted(Join(pages, lineSeparator), !writeFails)
  }

  /** What one run adds to the word counter. */
  function WordsAdded(r: Extraction): nat {
    if r.Extracted? then Tokens(r.text) else 0
  }

  /** The total number of tokens of the pages. */
  function PageTokens(pages: seq<string>): nat
    decreases |pages|
  {
    if |pages| == 0 then 0 else PageTokens(pages[..|pages| - 1]) + Tokens(pages[|pages| - 1])
  }

  /** An encrypted document is skipped whatever the policy, the output file and the answer, with no prompt. */
  lemma EncryptedIsSkipped(pages: seq<string>, overwrite: string, outputExists: bool, answer: string,
                           lineSeparator: string, writeFails: bool)
    ensures Expected(Document(true, pages), overwrite, outputExists, answer, lineSeparator, writeFails) == SkippedEncrypted
    ensures !Prompts(Document(true, pages), overwrite, outputExists)
  {
  }

  /** Without an output file every policy extracts, no prompt is shown and the answer plays no part. */
  lemma MissingOutputIsExtracted(pages: seq<string>, overwrite: string, answer: string,
                                 lineSeparator: string, writeFails: bool)
    ensures Expected(Document(false, pages), overwrite, false, answer, lineSeparator, writeFails) ==
      Extracted(Join(pages, lineSeparator), !writeFails)
    ensures !Prompts(Document(false, pages), overwrite, false)
  {
  }

  /**
   * With an output file: policy all extracts, policy none skips, and policy
   * select extracts exactly on a yes and reports a no apart from any other answer.
   */
  lemma ExistingOutputPolicy(pages: seq<string>, overwrite: string, answer: string,
                             lineSeparator: string, writeFails: bool)
    ensures var r := Expected(Document(false, pages), overwrite, true, answer, lineSeparator, writeFails);
      && (overwrite == OverwriteAll ==> r == Extracted(Join(pages, lineSeparator), !writeFails))
      && (overwrite == OverwriteNone ==> r == SkippedExisting)
      && (overwrite == OverwriteSelect ==>
            (r.Extracted? <==> answer in {"I", "i", "\U{0130}", "\U{0131}"}) &&
            (r == SkippedDeclined <==> answer in {"N", "n"}))
  {
    YesAnswers(answer);
    NoAnswers(answer);
  }

  /** The joined text ends with the last page, preceded by a separator when there are earlier pages. */
  lemma JoinLastPage(pages: seq<string>, sep: string)
    requires |pages| > 0
    ensures EndsWith(Join(pages, sep), pages[|pages| - 1])
    ensures |pages| > 1 ==> Join(pages, sep) == Join(pages[..|pages| - 1], sep) + sep + pages[|pages| - 1]
  {
    var j := Join(pages, sep);
    var last := pages[|pages| - 1];
    assert j[|j| - |last|..] == last;
  }

  /** The joined text is empty exactly when every page is and no separator is placed. */
  lemma {:induction false} JoinEmpty(pages: seq<string>, sep: string)
    ensures Join(pages, sep) == "" <==> (forall i :: 0 <= i < |pages| ==> pages[i] == "") && (|pages| <= 1 || sep == "")
    decreases |pages|
  {
    if |pages| > 1 {
      var init := pages[..|pages| - 1];
      JoinEmpty(init, sep);
      assert forall i :: 0 <= i < |init| ==> init[i] == pages[i];
      if Join(pages, sep) == "" {
        assert Join(init, sep) == "" && sep == "" && pages[|pages| - 1] == "";
      }
    }
  }

  /** With a separator of delimiters the text has the tokens of its pages, no more and no fewer. */
  lemma {:induction false} JoinTokens(pages: seq<string>, sep: string)
    requires sep != [] && forall i :: 0 <= i < |sep| ==> IsDelimiter(sep[i])
    ensures Tokens(Join(pages, sep)) == PageTokens(pages)
    decreases |pages|
  {
    if |pages| == 1 {
      assert pages[..0] == [];
    } else if |pages| > 1 {
      var init := pages[..|pages| - 1];
      JoinTokens(init, sep);
      NoTokens(sep);
      TokensAppend(Join(init, sep), sep);
      TokensAppend(Join(init, sep) + sep, pages[|pages| - 1]);
    }
  }

  /**
   * The page loop of extractText: each page text in order, followed by the
   * line separator unless it is the last page.
   */
  method JoinPages(pages: seq<string>, sep: string) returns (text: string)
    ensures text == Join(pages, sep)
  {
    var pageCount := |pages|;
    text := "";
    var page := 1;
    while page <= pageCount
      invariant 1 <= page <= pageCount + 1
      invariant text == if page == 1 then "" else
        Join(pages[..page - 1], sep) + (if page - 1 < pageCount then sep else "")
    {
      assert pages[..page][..page - 1] == pages[..page - 1];
      text := text + pages[page - 1];
      if page < pageCount {
        text := text + sep;
      }
      page := page + 1;
    }
    assert pages[..pageCount] == pages;
  }

  /** The static wordCount of the source, one object shared by every extractor. */
  class WordCounter {
    var count: nat

    constructor ()
      ensures count == 0
    {
      count := 0;
    }
  }

  /** The output text file: whether it exists and what it holds. */
  class TextFile {
    const path: string
    var present: bool
    var content: string

    constructor (path: string, present: bool, content: string)
      ensures this.path == path && this.present == present && this.content == content
    {
      this.path := path;
      this.present := present;
      this.content := content;
    }
  }

  class TextExtractor {
    const path: string
    const textPath: string
    const overwrite: string
    const counter: WordCounter

    constructor (path: string, overwrite: string, counter: WordCounter)
      ensures this.path == path && textPath == GenerateTextPath(path)
      ensures this.overwrite == overwrite && this.counter == counter
    {
      this.path := path;
      textPath := GenerateTextPath(path);
      this.overwrite := overwrite;
      this.counter := counter;
    }

    /**
     * extractText on `file`, the object for `textPath`. The outputs say how
     * the run ended, whether the prompt was shown and whether the empty-text
     * error was reported. On `writeFails` the created file stays empty and
     * the IOException is swallowed; the counter has already grown.
     */
    method ExtractText(pdf: Pdf, file: TextFile, answer: string, lineSeparator: string, writeFails: bool)
      returns (r: Extraction, prompted: bool, emptyWarning: bool)
      requires file.path == textPath
      modifies counter, file
      ensures r == Expected(pdf, overwrite, old(file.present), answer, lineSeparator, writeFails)
      ensures prompted == Prompts(pdf, overwrite, old(file.present))
      ensures emptyWarning <==> r.Extracted? && r.text == ""
      ensures counter.count == old(counter.count) + WordsAdded(r)
      ensures !r.Extracted? ==> counter.count == old(counter.count)
      ensures r.Extracted? ==> file.present && file.content == (if r.written then r.text else "")
      ensures !r.Extracted? ==> file.present == old(file.present) && file.content == old(file.content)
    {
      prompted, emptyWarning := false, false;
      if pdf.Unreadable? {
        return OpenFailed, prompted, emptyWarning;
      }
      if pdf.encrypted {
        return SkippedEncrypted, prompted, emptyWarning;
      }
      if file.present {
        if overwrite == OverwriteAll {
        } else if overwrite == OverwriteNone {
          return SkippedExisting, prompted, emptyWarning;
        } else {
          prompted := true;
          if IsYes(answer) {
          } else if IsNo(answer) {
            return SkippedDeclined, prompted, emptyWarning;
          } else {
            return SkippedUnrecognised, prompted, emptyWarning;
          }
        }
      }
      assert Expected(pdf, overwrite, old(file.present), answer, lineSeparator, writeFails) ==
        Extracted(Join(pdf.pages, lineSeparator), !writeFails);
      var text := JoinPages(pdf.pages, lineSeparator);
      if text == "" {
        emptyWarning := true;
      }
      var words := CountTokens(text);
      counter.count := counter.count + words;
      if file.present {
        file.present, file.content := false, "";
      }
      file.present, file.content := true, "";
      if !writeFails {
        file.content := text;
      }
      r := Extracted(text, !writeFails);
    }
  }
}
