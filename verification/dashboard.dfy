/** The file dashboard: a list of file names the user can open, add to and
    delete from, with a dialog for typing the name of a new file. */
module Dashboard {
  import opened Wrappers

  /** The files listed when the dashboard first appears. */
  const InitialFiles: seq<string> := ["file1.txt", "file2.txt", "file3.txt"]

  /** The route under which a file is opened for drawing. */
  const DrawPrefix: string := "/draw/"

  // ---------------------------------------------------------------------
  // `String.prototype.trim`

  /** The characters `trim` strips: ECMAScript's WhiteSpace and
      LineTerminator code points (sections 12.2 and 12.3 of ECMA-262). */
  predicate IsTrimmable(c: char) {
    || c == '\t' || c == '\n' || c == '\U{B}' || c == '\U{C}' || c == '\r'
    || c == ' ' || c == '\U{A0}' || c == '\U{1680}'
    || ('\U{2000}' <= c <= '\U{200A}')
    || c == '\U{2028}' || c == '\U{2029}' || c == '\U{202F}' || c == '\U{205F}'
    || c == '\U{3000}' || c == '\U{FEFF}'
  }

  predicate AllTrimmable(s: string) {
    forall i :: 0 <= i < |s| ==> IsTrimmable(s[i])
  }

  /** `s` without its leading trimmable characters. */
  function TrimStart(s: string): (r: string)
    ensures |r| <= |s| && r == s[|s| - |r|..]
    ensures AllTrimmable(s[..|s| - |r|])
    ensures r != [] ==> !IsTrimmable(r[0])
  {
    if s != [] && IsTrimmable(s[0]) then TrimStart(s[1..]) else s
  }

  /** `s` without its trailing trimmable characters. */
  function TrimEnd(s: string): (r: string)
    ensures |r| <= |s| && r == s[..|r|]
    ensures AllTrimmable(s[|r|..])
    ensures r != [] ==> !IsTrimmable(r[|r| - 1])
  {
    if s != [] && IsTrimmable(s[|s| - 1]) then TrimEnd(s[..|s| - 1]) else s
  }

  /** `s.trim()`: empty exactly when every character is whitespace, and
      otherwise a part of `s` with no whitespace at either end. */
  function Trim(s: string): (t: string)
    ensures |t| <= |s|
    ensures t == [] <==> AllTrimmable(s)
    ensures t != [] ==> !IsTrimmable(t[0]) && !IsTrimmable(t[|t| - 1])
  {
    TrimEnd(TrimStart(s))
  }

  /** `s.trim()` is truthy: some character of `s` is not whitespace. */
  function HasContent(s: string): (b: bool)
    ensures b <==> !AllTrimmable(s)
  {
    Trim(s) != ""
  }

  // ---------------------------------------------------------------------
  // The list operations behind the handlers

  /** `files.filter((file) => file !== name)`. */
  function Without(files: seq<string>, name: string): (r: seq<string>)
    ensures |r| <= |files|
    ensures forall f :: f in r <==> f in files && f != name
  {
    if files == [] then []
    else (if files[0] == name then [] else [files[0]]) + Without(files[1..], name)
  }

  /** `r` is `s` with some elements dropped, the rest kept in order. */
  predicate IsSubsequence(r: seq<string>, s: seq<string>)
    decreases |s|
  {
    if s == [] then r == []
    else (r != [] && r[0] == s[0] && IsSubsequence(r[1..], s[1..])) || IsSubsequence(r, s[1..])
  }

  /** Deleting keeps the remaining files in their original order. */
  lemma {:induction false} WithoutKeepsOrder(files: seq<string>, name: string)
    ensures IsSubsequence(Without(files, name), files)
  {
    if files != [] {
      WithoutKeepsOrder(files[1..], name);
      var rest := Without(files[1..], name);
      if files[0] != name {
        assert Without(files, name) == [files[0]] + rest;
        assert Without(files, name)[1..] == rest;
      } else {
        assert Without(files, name) == rest;
      }
    }
  }

  /** Deleting removes every occurrence of the name and no other file. */
  lemma {:induction false} WithoutCounts(files: seq<string>, name: string)
    ensures multiset(Without(files, name)) == multiset(files)[name := 0]
  {
    if files != [] {
      WithoutCounts(files[1..], name);
      assert files == [files[0]] + files[1..];
      assert multiset(files) == multiset{files[0]} + multiset(files[1..]);
    }
  }

  /** Deleting a name that is not listed changes nothing. */
  lemma {:induction false} WithoutAbsent(files: seq<string>, name: string)
    requires name !in files
    ensures Without(files, name) == files
  {
    if files != [] {
      WithoutAbsent(files[1..], name);
      assert files == [files[0]] + files[1..];
    }
  }

  /** Deleting twice is deleting once. */
  lemma WithoutIdempotent(files: seq<string>, name: string)
    ensures Without(Without(files, name), name) == Without(files, name)
  {
    WithoutAbsent(Without(files, name), name);
  }

  /** Deleting from a concatenation deletes from each part. */
  lemma {:induction false} WithoutAppend(a: seq<string>, b: seq<string>, name: string)
    ensures Without(a + b, name) == Without(a, name) + Without(b, name)
  {
    if a != [] {
      WithoutAppend(a[1..], b, name);
      assert (a + b)[1..] == a[1..] + b;
    } else {
      assert a + b == b;
    }
  }

  /** A file created and then deleted by name leaves the list as deleting
      alone would: every copy goes, the new one included. */
  lemma CreateThenDelete(files: seq<string>, name: string)
    ensures Without(files + [name], name) == Without(files, name)
  {
    WithoutAppend(files, [name], name);
    assert Without([name], name) == [];
  }

  /** The route a click navigates to. */
  function DrawRoute(name: string): (route: string)
    ensures |route| == |DrawPrefix| + |name|
    ensures route[..|DrawPrefix|] == DrawPrefix && route[|DrawPrefix|..] == name
  {
    DrawPrefix + name
  }

  /** Different files open different routes. */
  lemma DrawRouteInjective(a: string, b: string)
    requires DrawRoute(a) == DrawRoute(b)
    ensures a == b
  {
  }

  // ---------------------------------------------------------------------
  // The component state and its handlers

  /** The dashboard component's state: the listed files, the text typed in
      the new-file dialog, whether that dialog is open, and the file last
      clicked. */
  class DashboardState {
    var files: seq<string>
    var newFileName: string
    var isDialogOpen: bool
    var activeFile: Option<string>

    /** The state on first render. */
    constructor ()
      ensures files == InitialFiles && newFileName == ""
      ensures !isDialogOpen && activeFile == None
    {
      files := InitialFiles;
      newFileName := "";
      isDialogOpen := false;
      activeFile := None;
    }

    /** `handleFileClick`: marks the file active and returns the route the
        page then navigates to. */
    method HandleFileClick(filename: string) returns (route: string)
      modifies this
      ensures activeFile == Some(filename)
      ensures route == DrawRoute(filename)
      ensures files == old(files) && newFileName == old(newFileName)
      ensures isDialogOpen == old(isDialogOpen)
    {
      activeFile := Some(filename);
      route := DrawRoute(filename);
    }

    /** `handleNewFile`: adds the typed name, untrimmed, at the end of the
        list when it has content, then clears the input and closes the
        dialog; a blank name changes nothing. */
    method HandleNewFile()
      modifies this
      ensures HasContent(old(newFileName)) ==>
        && files == old(files) + [old(newFileName)]
        && newFileName == ""
        && !isDialogOpen
      ensures !HasContent(old(newFileName)) ==>
        && files == old(files)
        && newFileName == old(newFileName)
        && isDialogOpen == old(isDialogOpen)
      ensures activeFile == old(activeFile)
    {
      if Trim(newFileName) != "" {
        files := files + [newFileName];
        newFileName := "";
        isDialogOpen := false;
      }
    }

    /** `handleDeleteFile`: removes every file of that name; the rest of the
        state is untouched. */
    method HandleDeleteFile(filename: string)
      modifies this
      ensures files == Without(old(files), filename)
      ensures filename !in files
      ensures newFileName == old(newFileName) && isDialogOpen == old(isDialogOpen)
      ensures activeFile == old(activeFile)
    {
      files := Without(files, filename);
    }

    /** The dialog input's change handler. */
    method SetNewFileName(value: string)
      modifies this
      ensures newFileName == value
      ensures files == old(files) && isDialogOpen == old(isDialogOpen)
      ensures activeFile == old(activeFile)
    {
      newFileName := value;
    }

    /** Opening the dialog from the "Create New File" card, closing it with
        Cancel, or the dialog's own open-state change. */
    method SetDialogOpen(open: bool)
      modifies this
      ensures isDialogOpen == open
      ensures files == old(files) && newFileName == old(newFileName)
      ensures activeFile == old(activeFile)
    {
      isDialogOpen := open;
    }
  }
}
