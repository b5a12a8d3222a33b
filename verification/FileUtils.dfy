/** internal/utils/fileutils: the rule for names used as single path components. */
module FileUtils {
  import opened Wrappers
  import opened Paths

  /** A single path component of ASCII without whitespace, NUL or backslash. */
  predicate ValidFilename(name: string) {
    && name != "" && name != "." && name != ".."
    && forall i :: 0 <= i < |name| ==>
         && name[i] != '/' && name[i] != '\\' && name[i] != '\0' && name[i] as int <= 127
         && name[i] !in " \t\n\r" && name[i] as int != 11 && name[i] as int != 12
  }

  datatype FilenameError =
    | Empty
    | DirectoryEntry
    | AbsolutePath
    | PathTraversal
    | DirectoryComponents
    | Whitespace
    | NullByte
    | Backslash
    | NonASCII

  /** unicode.IsSpace: the ASCII spaces, and others that are not ASCII. */
  predicate IsSpace(c: char, otherSpace: char -> bool) {
    c in [' ', '\t', '\n', 11 as char, 12 as char, '\r'] || (c as int > 127 && otherSpace(c))
  }

  /** The checks of fileutils.ValidateFilename in their order; "clean" is filepath.Clean. */
  function ValidateFilename(filename: string, clean: string -> string, otherSpace: char -> bool): Result<(), FilenameError> {
    if filename == "" then Failure(Empty)
    else if filename == "." || filename == ".." then Failure(DirectoryEntry)
    else if filename[0] == '/' then Failure(AbsolutePath)
    else if clean(filename) != filename then Failure(PathTraversal)
    else if BaseName(filename) != filename then Failure(DirectoryComponents)
    else if exists c :: c in filename && IsSpace(c, otherSpace) then Failure(Whitespace)
    else if '\0' in filename then Failure(NullByte)
    else if '\\' in filename then Failure(Backslash)
    else if exists c :: c in filename && c as int > 127 then Failure(NonASCII)
    else Success(())
  }

  /** Cleaning leaves the name of a directory entry alone. */
  ghost predicate KeepsNames(clean: string -> string) {
    forall name :: name != "" && name != "." && name != ".." && '/' !in name ==> clean(name) == name
  }

  /** The checks accept exactly the valid names, whatever cleaning does to paths of several components. */
  lemma ValidatesExactly(name: string, clean: string -> string, otherSpace: char -> bool)
    requires KeepsNames(clean)
    ensures ValidateFilename(name, clean, otherSpace).Success? <==> ValidFilename(name)
  {
    hide BaseName;
    BaseNameHasNoSlash(name);
    AllCharacters(name, otherSpace);
  }

  predicate PlainChar(c: char, otherSpace: char -> bool) {
    c != '/' && c != '\\' && c != '\0' && c as int <= 127 && !IsSpace(c, otherSpace)
  }

  lemma AllCharacters(name: string, otherSpace: char -> bool)
    ensures ValidFilename(name) <==> name !in ["", ".", ".."] && forall c :: c in name ==> PlainChar(c, otherSpace)
  {
    assert forall i :: 0 <= i < |name| ==> name[i] in name;
  }
}
