/** The end-of-line state of a buffer: reading a file and writing it back. */
module EndOfLine {
  import opened ByteStrings
  import opened Rows

  datatype EolState = EolState(endofline: bool, loadedEmpty: bool)

  /** A buffer with no file behind it. */
  const NO_FILE := EolState(true, true)

  predicate EndsWithNewline(content: Bytes) {
    content != [] && content[|content| - 1] == NL
  }

  /** `EolState::from_loaded`. */
  function FromLoaded(content: Bytes): EolState {
    EolState(content == [] || EndsWithNewline(content), content == [])
  }

  /** The text put in the buffer: one final newline is dropped. */
  function Body(content: Bytes): Bytes {
    if EndsWithNewline(content) then content[..|content| - 1] else content
  }

  /** `EolState::trailing_newline`. */
  predicate TrailingNewline(eol: EolState, body: Bytes, fixEndOfLine: bool) {
    if body == [] && eol.loadedEmpty then false else eol.endofline || fixEndOfLine
  }

  /** The bytes a save writes: the rows joined, and the newline if one is due. */
  function Write(eol: EolState, body: Bytes, fixEndOfLine: bool): Bytes {
    body + (if TrailingNewline(eol, body, fixEndOfLine) then [NL] else [])
  }

  /** Opening a file and saving it again. */
  function LoadSave(content: Bytes, fixEndOfLine: bool): Bytes {
    Write(FromLoaded(content), Join(Split(Body(content))), fixEndOfLine)
  }

  /**
   * Without `fixendofline`, saving reproduces the file byte for byte; with
   * it, saving appends a newline exactly to a file that has text and lacks one.
   */
  lemma LoadSaveExact(content: Bytes)
    ensures LoadSave(content, false) == content
    ensures LoadSave(content, true) == if content == [] || EndsWithNewline(content) then content else content + [NL]
  {
    JoinOfSplit(Body(content));
    if EndsWithNewline(content) {
      assert content == content[..|content| - 1] + [NL];
    }
  }

  /** One save reaches a fixed point, whatever the options of the first and later saves. */
  lemma SaveOnceIsEnough(content: Bytes, first: bool, later: bool)
    requires first || !later
    ensures LoadSave(LoadSave(content, first), later) == LoadSave(content, first)
  {
    LoadSaveExact(content);
    LoadSaveExact(LoadSave(content, first));
  }

  /** A new file: nothing in, nothing out; any text gets its newline even under `nofixendofline`. */
  lemma NewFile(body: Bytes, fixEndOfLine: bool)
    ensures Write(NO_FILE, body, fixEndOfLine) == if body == [] then [] else body + [NL]
  {
  }

  /** What was written loads back as what was in the buffer, for text that does not itself end in a newline. */
  lemma WriteThenLoad(eol: EolState, body: Bytes, fixEndOfLine: bool)
    ensures Body(Write(eol, body, fixEndOfLine)) == body
      <==> TrailingNewline(eol, body, fixEndOfLine) || !EndsWithNewline(body)
  {
    var out := Write(eol, body, fixEndOfLine);
    if TrailingNewline(eol, body, fixEndOfLine) {
      assert out[..|out| - 1] == body;
    } else {
      assert out == body;
    }
  }

  /**
   * A file opened, edited and saved: text gets its final newline if the option
   * asks for it, the file had one, or the file was empty; and emptied text is
   * written as nothing only where the file was empty or lacked the newline.
   */
  lemma EditThenSave(content: Bytes, body: Bytes, fixEndOfLine: bool)
    ensures var out, had := Write(FromLoaded(content), body, fixEndOfLine), EndsWithNewline(content);
      && (body != [] ==> out == if fixEndOfLine || had || content == [] then body + [NL] else body)
      && (body == [] ==> out == if content != [] && (fixEndOfLine || had) then [NL] else [])
  {
  }
}
