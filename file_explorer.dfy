/** The file-creation dialog of src/components/FileExplorer.tsx: the typed
    name and the selected type, and the decision `createFile` takes when the
    user confirms. A rejected name shows a message and changes nothing; an
    accepted one hands exactly one new file to the caller and resets the
    dialog. */
module FileExplorer {
  import opened Types
  import Text
  import FileUtils

  const DuplicateMessage := "File with this name already exists"
  const CreatedMessage := "File created successfully"

  /** What `createFile` does with a typed name: reject it with the message it
      shows, or accept it with the name and type of the file it creates. */
  datatype Decision = Rejected(message: string) | Accepted(name: string, fileType: string)

  /** `files.some(f => f.name.toLowerCase() === name.toLowerCase())`. */
  predicate NameTaken(files: seq<File>, name: string)
  {
    exists i :: 0 <= i < |files| && Text.Lower(files[i].name) == Text.Lower(name)
  }

  /** The name the file gets: the typed name when it has a dot, otherwise the
      typed name followed by a dot and the selected type. */
  function FullFileName(name: string, selectedType: string): (full: string)
    ensures '.' in name ==> full == name
    ensures '.' !in name ==> full == name + "." + selectedType
  {
    Text.IncludesChar(name, '.');
    if Text.Includes(name, ".") then name else name + "." + selectedType
  }

  /** The decision of `createFile` for the typed name and selected type. */
  function Decide(files: seq<File>, name: string, selectedType: string): (d: Decision)
    ensures FileUtils.ValidateFileName(name).Some? ==>
              d == Rejected(FileUtils.ValidateFileName(name).value)
    ensures FileUtils.ValidateFileName(name).None? && NameTaken(files, name) ==>
              d == Rejected(DuplicateMessage)
    ensures d.Accepted? <==> FileUtils.ValidateFileName(name).None? && !NameTaken(files, name)
    ensures d.Accepted? ==>
              && d.name == (if '.' in name then name else name + "." + selectedType)
              && d.fileType == selectedType
  {
    var validation := FileUtils.ValidateFileName(name);
    if validation.Some? then Rejected(validation.value)
    else if NameTaken(files, name) then Rejected(DuplicateMessage)
    else Accepted(FullFileName(name, selectedType), selectedType)
  }

  /** The duplicate check compares the typed name, not the final one: next
      to an existing "index.html", typing "index" with type html is accepted
      and yields a second file named "index.html". */
  lemma DuplicateCheckUsesTypedName(files: seq<File>, name: string, selectedType: string, existing: File)
    requires FileUtils.ValidateFileName(name) == None && '.' !in name
    requires !NameTaken(files, name)
    requires existing in files && existing.name == name + "." + selectedType
    ensures Decide(files, name, selectedType) == Accepted(existing.name, selectedType)
    ensures NameTaken(files, Decide(files, name, selectedType).name)
  {
    var i :| 0 <= i < |files| && files[i] == existing;
    assert Text.Lower(files[i].name) == Text.Lower(existing.name);
  }

  /** The new file's type (and so its template) comes from the selected
      type, while a typed name with a dot keeps its own extension: "style.css"
      created as html is an html file whose name's extension is css. */
  lemma TypeFollowsSelection(files: seq<File>, name: string, selectedType: string)
    requires Decide(files, name, selectedType).Accepted? && '.' in name
    ensures var d := Decide(files, name, selectedType);
            && d.fileType == selectedType
            && FileUtils.GetFileExtension(d.name) == FileUtils.GetFileExtension(name)
  {
  }

  /** A dotless typed name gets the selected type as its extension. */
  lemma DotlessNameGetsSelectedExtension(files: seq<File>, name: string, selectedType: string)
    requires '.' !in name && '.' !in selectedType && selectedType != ""
    requires Decide(files, name, selectedType).Accepted?
    ensures FileUtils.GetFileExtension(Decide(files, name, selectedType).name)
            == Text.Lower(selectedType)
  {
    FileUtils.ExtensionOfJoinedName(name, selectedType);
  }

  /** Only the typed name is validated: a dotless name of the maximum length
      is accepted, and the file it yields has a longer name, which the
      validator would reject. */
  lemma FinalNameCanExceedLimit(files: seq<File>, name: string, selectedType: string)
    requires Decide(files, name, selectedType).Accepted?
    requires '.' !in name && |name| == FileUtils.MaxNameLength
    requires '/' !in selectedType && '\\' !in selectedType
    ensures var full := Decide(files, name, selectedType).name;
            && |full| > FileUtils.MaxNameLength
            && FileUtils.ValidateFileName(full) == Some(FileUtils.TooLongMessage)
  {
    FileUtils.ExtendedValidNameKeepsRules(name, selectedType);
  }

  /** The dialog state of the file explorer. */
  class CreateFileDialog {
    var showCreateDialog: bool
    var newFileName: string
    var newFileType: string

    constructor ()
      ensures !showCreateDialog && newFileName == "" && newFileType == "html"
    {
      showCreateDialog := false;
      newFileName := "";
      newFileType := "html";
    }

    /** The dialog's `onOpenChange`: its trigger button opens it, and
        dismissing it closes it, with the name and type kept. */
    method SetOpen(open: bool)
      modifies this
      ensures showCreateDialog == open
      ensures newFileName == old(newFileName) && newFileType == old(newFileType)
    {
      showCreateDialog := open;
    }

    /** The name input's change handler. */
    method EditName(name: string)
      modifies this
      ensures newFileName == name
      ensures showCreateDialog == old(showCreateDialog) && newFileType == old(newFileType)
    {
      newFileName := name;
    }

    /** The type selector's change handler. */
    method SelectType(fileType: string)
      modifies this
      ensures newFileType == fileType
      ensures showCreateDialog == old(showCreateDialog) && newFileName == old(newFileName)
    {
      newFileType := fileType;
    }

    /** `createFile`: returns the file handed to `onCreateFile`, if any, and the
        message shown to the user. A rejection leaves the dialog as it was; an
        acceptance creates the file from the decided name and type, resets
        the name to "", the type to "html" and closes the dialog. The new
        file's id and clock reading are parameters. */
    method CreateFile(files: seq<File>, id: string, now: nat) returns (created: Option<File>, notice: string)
      modifies this
      ensures match Decide(files, old(newFileName), old(newFileType))
              case Rejected(message) =>
                && created == None && notice == message
                && newFileName == old(newFileName) && newFileType == old(newFileType)
                && showCreateDialog == old(showCreateDialog)
              case Accepted(name, fileType) =>
                && created == Some(FileUtils.CreateNewFile(name, fileType, id, now))
                && notice == CreatedMessage
                && newFileName == "" && newFileType == "html" && !showCreateDialog
    {
      var validation := FileUtils.ValidateFileName(newFileName);
      if validation.Some? {
        return None, validation.value;
      }
      if NameTaken(files, newFileName) {
        return None, DuplicateMessage;
      }
      var fileExtension := newFileType;
      var fullFileName := FullFileName(newFileName, fileExtension);
      var file := FileUtils.CreateNewFile(fullFileName, fileExtension, id, now);
      created := Some(file);
      newFileName := "";
      newFileType := "html";
      showCreateDialog := false;
      notice := CreatedMessage;
    }
  }
}
