/** The editing session of src/components/MobileCodeEditor.tsx: the open
    project, the file shown in the editor, and the visibility flags, with
    the handlers that move between states. Clock readings are parameters;
    the outcome of a save and the project a remote refresh fetches are
    parameters too, and each handler is one atomic step. */
module MobileCodeEditor {
  import opened Types
  import Lists

  class EditorSession {
    var currentProject: Option<Project>
    var activeFile: Option<File>
    var showPreview: bool
    var saving: bool
    var showProjectManager: bool
    var showFileExplorer: bool

    /** The visibility flags and the saving indicator, as one value. */
    function Flags(): (bool, bool, bool, bool)
      reads this
    {
      (showPreview, saving, showProjectManager, showFileExplorer)
    }

    /** The file in the editor, if any, is one of the open project's files. */
    predicate ActiveInProject()
      reads this
    {
      activeFile.Some? ==> currentProject.Some? && activeFile.value in currentProject.value.files
    }

    /** The initial state: no project, no file, every panel closed. */
    constructor ()
      ensures currentProject == None && activeFile == None
      ensures Flags() == (false, false, false, false)
      ensures ActiveInProject()
    {
      currentProject := None;
      activeFile := None;
      showPreview := false;
      saving := false;
      showProjectManager := false;
      showFileExplorer := false;
    }

    /** `handleFileContentChange`: without an active file or a project nothing
        changes. Otherwise the active file gets the new content and
        timestamp, every file of the project with its id is replaced by that
        updated file (the others keep their place), the project is stamped,
        and the updated file becomes the active one. */
    method HandleFileContentChange(content: string, now: nat)
      modifies this
      ensures old(activeFile).None? || old(currentProject).None? ==>
                currentProject == old(currentProject) && activeFile == old(activeFile)
      ensures old(activeFile).Some? && old(currentProject).Some? ==>
                var a := old(activeFile).value;
                var p := old(currentProject).value;
                var updated := a.(content := content, lastModified := now);
                && activeFile == Some(updated)
                && currentProject.Some?
                && currentProject.value == p.(files := currentProject.value.files, lastModified := now)
                && |currentProject.value.files| == |p.files|
                && Lists.Keys(currentProject.value.files, FileId) == Lists.Keys(p.files, FileId)
                && (forall i :: 0 <= i < |p.files| ==>
                      currentProject.value.files[i] == if p.files[i].id == a.id then updated else p.files[i])
      ensures Flags() == old(Flags())
      ensures old(ActiveInProject()) ==> ActiveInProject()
    {
      if activeFile.None? || currentProject.None? {
        return;
      }
      var a := activeFile.value;
      var p := currentProject.value;
      var updatedFile := a.(content := content, lastModified := now);
      var updatedFiles := Lists.ReplaceWhere(p.files, FileId, a.id, updatedFile);
      currentProject := Some(p.(files := updatedFiles, lastModified := now));
      activeFile := Some(updatedFile);
      Lists.ReplaceWhereKeys(p.files, FileId, a.id, updatedFile);
      if a in p.files {
        var i :| 0 <= i < |p.files| && p.files[i] == a;
        assert updatedFiles[i] == updatedFile;
      }
    }

    /** `handleCreateFile`: without a project nothing changes; otherwise the
        file is appended, the project stamped, and the file made active. */
    method HandleCreateFile(file: File, now: nat)
      modifies this
      ensures old(currentProject).None? ==>
                currentProject == None && activeFile == old(activeFile)
      ensures old(currentProject).Some? ==>
                var p := old(currentProject).value;
                && currentProject == Some(p.(files := p.files + [file], lastModified := now))
                && activeFile == Some(file)
      ensures Flags() == old(Flags())
      ensures old(ActiveInProject()) ==> ActiveInProject()
    {
      if currentProject.None? {
        return;
      }
      var p := currentProject.value;
      currentProject := Some(p.(files := p.files + [file], lastModified := now));
      activeFile := Some(file);
    }

    /** `handleDeleteFile`: without a project nothing changes; otherwise every
        file with the id is dropped, the others keep their order, and the
        project is stamped. Only when the active file was the deleted one
        does the first remaining file (or none) become active. */
    method HandleDeleteFile(fileId: string, now: nat)
      modifies this
      ensures old(currentProject).None? ==>
                currentProject == None && activeFile == old(activeFile)
      ensures old(currentProject).Some? ==>
                var p := old(currentProject).value;
                var rest := Lists.Remove(p.files, FileId, fileId);
                && currentProject == Some(p.(files := rest, lastModified := now))
                && fileId !in Lists.Keys(rest, FileId)
                && activeFile == if old(activeFile).Some? && old(activeFile).value.id == fileId
                                 then (if |rest| > 0 then Some(rest[0]) else None)
                                 else old(activeFile)
      ensures Flags() == old(Flags())
      ensures old(ActiveInProject()) ==> ActiveInProject()
    {
      if currentProject.None? {
        return;
      }
      var p := currentProject.value;
      var rest := Lists.Remove(p.files, FileId, fileId);
      Lists.RemoveKeys(p.files, FileId, fileId);
      currentProject := Some(p.(files := rest, lastModified := now));
      if activeFile.Some? && activeFile.value.id == fileId {
        activeFile := if |rest| > 0 then Some(rest[0]) else None;
      }
    }

    /** `handleSelectProject`: open the project with its first file active,
        or no file when it has none, and close the project manager. */
    method HandleSelectProject(project: Project)
      modifies this
      ensures currentProject == Some(project)
      ensures activeFile == if |project.files| > 0 then Some(project.files[0]) else None
      ensures !showProjectManager
      ensures showPreview == old(showPreview) && saving == old(saving)
      ensures showFileExplorer == old(showFileExplorer)
      ensures ActiveInProject()
    {
      currentProject := Some(project);
      activeFile := if |project.files| > 0 then Some(project.files[0]) else None;
      showProjectManager := false;
    }

    /** `handleCreateProject`: open the new project with no active file,
        whatever files it has, and close the project manager. */
    method HandleCreateProject(project: Project)
      modifies this
      ensures currentProject == Some(project) && activeFile == None
      ensures !showProjectManager
      ensures showPreview == old(showPreview) && saving == old(saving)
      ensures showFileExplorer == old(showFileExplorer)
      ensures ActiveInProject()
    {
      currentProject := Some(project);
      activeFile := None;
      showProjectManager := false;
    }

    /** A file picked in the desktop file list becomes active. */
    method SelectFile(file: File)
      modifies this
      ensures activeFile == Some(file) && currentProject == old(currentProject)
      ensures Flags() == old(Flags())
      ensures currentProject.Some? && file in currentProject.value.files ==> ActiveInProject()
    {
      activeFile := Some(file);
    }

    /** A file picked in the mobile file sheet becomes active and the sheet
        closes. */
    method SelectFileFromSheet(file: File)
      modifies this
      ensures activeFile == Some(file) && currentProject == old(currentProject)
      ensures !showFileExplorer
      ensures showPreview == old(showPreview) && saving == old(saving)
      ensures showProjectManager == old(showProjectManager)
      ensures currentProject.Some? && file in currentProject.value.files ==> ActiveInProject()
    {
      activeFile := Some(file);
      showFileExplorer := false;
    }

    /** `saveProject`: without a project nothing happens and nothing is sent.
        Otherwise the project stamped with the clock reading is sent to the
        backend; it becomes the current project only when the backend
        reports success (`ok`), and the saving indicator ends up off either
        way. The active file is never touched. */
    method Save(now: nat, ok: bool) returns (sent: Option<Project>)
      modifies this
      ensures old(currentProject).None? ==>
                sent == None && currentProject == None && saving == old(saving)
      ensures old(currentProject).Some? ==>
                && sent == Some(old(currentProject).value.(lastModified := now))
                && currentProject == (if ok then sent else old(currentProject))
                && !saving
      ensures activeFile == old(activeFile)
      ensures showPreview == old(showPreview) && showProjectManager == old(showProjectManager)
      ensures showFileExplorer == old(showFileExplorer)
      ensures old(ActiveInProject()) ==> ActiveInProject()
    {
      if currentProject.None? {
        return None;
      }
      saving := true;
      var updatedProject := currentProject.value.(lastModified := now);
      sent := Some(updatedProject);
      if ok {
        currentProject := Some(updatedProject);
      }
      saving := false;
    }

    /** The realtime callback: it is only subscribed while a project is open.
        When the backend returns a project, it replaces the current one
        wholesale; the active file is replaced by the fetched file with the
        same id when there is one, and is otherwise left as it was, even
        though it is then no file of the open project. */
    method Refresh(fetched: Option<Project>)
      modifies this
      ensures old(currentProject).None? || fetched.None? ==>
                currentProject == old(currentProject) && activeFile == old(activeFile)
      ensures old(currentProject).Some? && fetched.Some? ==>
                && currentProject == fetched
                && activeFile == if old(activeFile).Some? &&
                                    old(activeFile).value.id in Lists.Keys(fetched.value.files, FileId)
                                 then Lists.Find(fetched.value.files, FileId, old(activeFile).value.id)
                                 else old(activeFile)
      ensures old(currentProject).Some? && fetched.Some? && old(activeFile).Some? &&
              old(activeFile).value.id !in Lists.Keys(fetched.value.files, FileId) ==>
                !ActiveInProject()
      ensures Flags() == old(Flags())
    {
      if currentProject.None? || fetched.None? {
        return;
      }
      var updatedProject := fetched.value;
      currentProject := Some(updatedProject);
      if activeFile.Some? {
        var updatedFile := Lists.Find(updatedProject.files, FileId, activeFile.value.id);
        if updatedFile.Some? {
          activeFile := updatedFile;
        } else {
          assert activeFile.value !in updatedProject.files;
        }
      }
    }

    /** The back button: closes the project and leaves the active file set. */
    method Back()
      modifies this
      ensures currentProject == None && activeFile == old(activeFile)
      ensures Flags() == old(Flags())
      ensures ActiveInProject() <==> activeFile.None?
    {
      currentProject := None;
    }

    /** The project manager sheet's `onOpenChange` and the welcome screen's
        button: open or close the project manager. */
    method SetProjectManagerOpen(open: bool)
      modifies this
      ensures showProjectManager == open
      ensures currentProject == old(currentProject) && activeFile == old(activeFile)
      ensures showPreview == old(showPreview) && saving == old(saving)
      ensures showFileExplorer == old(showFileExplorer)
    {
      showProjectManager := open;
    }

    /** The file sheet's `onOpenChange` and the "Browse Files" button: open
        or close the file sheet. */
    method SetFileExplorerOpen(open: bool)
      modifies this
      ensures showFileExplorer == open
      ensures currentProject == old(currentProject) && activeFile == old(activeFile)
      ensures showPreview == old(showPreview) && saving == old(saving)
      ensures showProjectManager == old(showProjectManager)
    {
      showFileExplorer := open;
    }

    /** The preview button flips the preview's visibility. */
    method TogglePreview()
      modifies this
      ensures showPreview == !old(showPreview)
      ensures currentProject == old(currentProject) && activeFile == old(activeFile)
      ensures saving == old(saving) && showProjectManager == old(showProjectManager)
      ensures showFileExplorer == old(showFileExplorer)
    {
      showPreview := !showPreview;
    }

    /** The preview panel's close control hides it. */
    method ClosePreview()
      modifies this
      ensures !showPreview
      ensures currentProject == old(currentProject) && activeFile == old(activeFile)
      ensures saving == old(saving) && showProjectManager == old(showProjectManager)
      ensures showFileExplorer == old(showFileExplorer)
    {
      showPreview := false;
    }
  }
}
