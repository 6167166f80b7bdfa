/** The extraction pipeline run on the text read out of an uploaded PDF
    (`extraer_datos_inteligente`): reject unreadable files, reject
    documents that are not official syllabi, and otherwise read the
    credits and the thematic section. Reading the PDF itself is not part
    of this model; its output is the input here. */
module Extraction {
  import opened Text
  import opened Validator
  import opened Section
  import opened Credits

  /** Fewest non-blank characters a readable PDF must yield. */
  const MinReadable: nat := 100

  /** Why an upload was turned down, or `Accepted`. */
  datatype Rejection = Accepted | DamagedFile | IllegibleText | NotOfficialSyllabus

  /** The user-facing message of each outcome (`mensaje_error`). */
  function Message(r: Rejection): string {
    match r
    case Accepted => ""
    case DamagedFile => "El archivo está dañado o no es un PDF válido."
    case IllegibleText => "Por favor sube el archivo digital original (texto ilegible)."
    case NotOfficialSyllabus => "El documento NO parece ser un sílabo oficial de la universidad."
  }

  /** The dictionary the pipeline returns. */
  datatype Extraction = Extraction(
    credits: nat,        // 'creditos'
    content: string,     // 'contenido_raw'
    valid: bool,         // 'valido': the file could be read
    isSyllabus: bool,    // 'es_silabo'
    rejection: Rejection // determines 'mensaje_error'
  )

  /** The text is long enough once whitespace at both ends is removed. */
  predicate Readable(text: string) {
    |Strip(text)| >= MinReadable
  }

  /** `extraer_datos_inteligente`, from the PDF's text on. */
  function ExtractData(text: string): (r: Extraction)
    ensures r.valid <==> Readable(text)
    ensures r.isSyllabus <==> Readable(text) && IsOfficialSyllabus(text)
    ensures r.rejection == Accepted <==> r.isSyllabus
    ensures r.rejection == DamagedFile <==> text == []
    ensures r.rejection == IllegibleText <==> text != [] && !Readable(text)
    ensures !r.isSyllabus ==> r.credits == 0 && r.content == []
    ensures r.isSyllabus ==> r.credits == ExtractCredits(text) && r.content == ThematicSection(text)
  {
    if !Readable(text) then
      Extraction(0, [], false, false, if text == [] then DamagedFile else IllegibleText)
    else if !IsOfficialSyllabus(text) then
      Extraction(0, [], true, false, NotOfficialSyllabus)
    else
      Extraction(ExtractCredits(text), ThematicSection(text), true, true, Accepted)
  }

  /** The shape every outcome has: a syllabus is always a readable file,
      only a syllabus carries content or credits, the credits are a single
      digit, and the message is empty exactly for a syllabus. */
  predicate WellShaped(e: Extraction) {
    && (e.isSyllabus ==> e.valid)
    && (e.content != [] ==> e.isSyllabus)
    && (e.credits > 0 ==> e.isSyllabus)
    && e.credits <= 9
    && (Message(e.rejection) == [] <==> e.isSyllabus)
    && (e.rejection == Accepted <==> e.isSyllabus)
  }

  lemma DamagedMessageNonEmpty()
    ensures Message(DamagedFile) != []
  {
  }

  lemma IllegibleMessageNonEmpty()
    ensures Message(IllegibleText) != []
  {
  }

  lemma NotSyllabusMessageNonEmpty()
    ensures Message(NotOfficialSyllabus) != []
  {
  }

  /** Only an accepted upload has an empty message. */
  lemma MessageEmptyOnlyWhenAccepted(r: Rejection)
    ensures Message(r) == [] <==> r == Accepted
  {
    match r
    case Accepted =>
    case DamagedFile => DamagedMessageNonEmpty();
    case IllegibleText => IllegibleMessageNonEmpty();
    case NotOfficialSyllabus => NotSyllabusMessageNonEmpty();
  }

  lemma ExtractDataWellShaped(text: string)
    ensures WellShaped(ExtractData(text))
  {
    var e := ExtractData(text);
    MessageEmptyOnlyWhenAccepted(e.rejection);
    if e.isSyllabus {
      assert e.credits == ExtractCredits(text);
    }
  }

  /** An empty read is a damaged file; whitespace alone, or fewer than 100
      characters once stripped, is illegible, whatever keywords it holds. */
  lemma ShortTextRejected(text: string)
    requires |Strip(text)| < MinReadable
    ensures !ExtractData(text).valid && !ExtractData(text).isSyllabus
    ensures ExtractData(text).rejection == (if text == [] then DamagedFile else IllegibleText)
  {
  }

  /** Text is readable only if it has at least 100 characters. */
  lemma ReadableNeedsLength(text: string)
    requires Readable(text)
    ensures |text| >= MinReadable && text != []
  {
  }

  /** A syllabus stays accepted whatever text is appended after it:
      appending keeps it readable and keeps its keywords. */
  lemma AppendKeepsAcceptance(text: string, more: string)
    requires ExtractData(text).isSyllabus
    ensures ExtractData(text + more).isSyllabus
  {
    StripGrowsWithAppend(text, more);
    OfficialSyllabusExtend(text, more);
  }
}
