/**
 * The plugin object of `main.ts`: its `settings` field with the load and save
 * of the plugin data, the two publish entry points, and the "Move image under
 * cursor" command acting on the vault.
 *
 * The editor, the workspace and the vault are reduced to what the plugin
 * reads and changes: the open view (or none), the cursor line, a map from
 * vault paths to files, the notices shown and the uploads sent.
 */
module Plugin {
  import opened Wrappers
  import opened Text
  import opened Bytes
  import opened MoveImage
  import opened Publish
  import AdminKey
  import Multipart

  /** The notice both publish entry points show when no Markdown view is open. */
  const NoViewToPublish := "Open the markdown file first before publish your post"

  /** The notice of the move command without an active view. */
  const NoActiveView := "No active view"

  /**
   * `Object.assign({}, DEFAULT_SETTINGS, loaded)`: each key of the loaded data
   * overrides the default; `null` (nothing saved yet) leaves the defaults.
   */
  function MergeSettings(defaults: Settings, loaded: Option<Settings>): (s: Settings)
    ensures forall k :: k in s <==> k in defaults || (loaded.Some? && k in loaded.value)
    ensures forall k :: loaded.Some? && k in loaded.value ==> s[k] == loaded.value[k]
    ensures forall k :: k in defaults && (loaded.None? || k !in loaded.value) ==> s[k] == defaults[k]
  {
    match loaded
    case None => defaults
    case Some(data) => defaults + data
  }

  /** Loading what was saved from loaded settings gives the same settings back. */
  lemma SaveThenLoad(defaults: Settings, loaded: Option<Settings>)
    ensures MergeSettings(defaults, Some(MergeSettings(defaults, loaded))) == MergeSettings(defaults, loaded)
  {
  }

  /** The environment of one publish: see `Publish.PublishPost`. */
  datatype PublishEnv = PublishEnv(render: string -> string, randomText: string,
                                   localImage: Option<seq<byte>>)

  /** `vault.adapter.readBinary("Attachments/ultra.png")`: the bytes, or a rejection. */
  function Attachment(vault: map<string, VaultFile>): (r: Option<seq<byte>>)
    ensures r.Some? <==> AttachmentPath in vault
    ensures r.Some? ==> r.value == vault[AttachmentPath].contents
  {
    if AttachmentPath in vault then Some(vault[AttachmentPath].contents) else None
  }

  class GhostPublish {
    /** `DEFAULT_SETTINGS` */
    const defaults: Settings
    /** `this.settings` */
    var settings: Settings
    /** The plugin data on disk, as `loadData` reads and `saveData` writes it. */
    var stored: Option<Settings>
    /** The vault's files by path. */
    var vault: map<string, VaultFile>
    /** The notices shown, in order. */
    var notices: seq<string>
    /** The uploads handed to `requestUrl`, in order. */
    var uploads: seq<UploadRequest>

    ghost predicate Valid()
      reads this`vault
    {
      WellNamed(vault)
    }

    constructor (defaults: Settings, stored: Option<Settings>, vault: map<string, VaultFile>)
      requires WellNamed(vault)
      ensures Valid()
      ensures this.defaults == defaults && this.stored == stored && this.vault == vault
      ensures settings == defaults && notices == [] && uploads == []
    {
      this.defaults := defaults;
      this.settings := defaults;
      this.stored := stored;
      this.vault := vault;
      this.notices := [];
      this.uploads := [];
    }

    /** `loadSettings` */
    method LoadSettings()
      modifies this`settings
      ensures settings == MergeSettings(defaults, stored)
      ensures stored == old(stored) && vault == old(vault)
      ensures notices == old(notices) && uploads == old(uploads)
    {
      settings := MergeSettings(defaults, stored);
    }

    /** `saveSettings`: the data on disk becomes exactly the current settings. */
    method SaveSettings()
      modifies this`stored
      ensures stored == Some(settings)
      ensures settings == old(settings) && vault == old(vault)
      ensures notices == old(notices) && uploads == old(uploads)
    {
      stored := Some(settings);
    }

    /**
     * The ribbon icon's and the "publish" command's callback: with no
     * Markdown view, a notice and nothing published; otherwise `publishPost`
     * with the current settings, whose upload is sent unless a step threw.
     */
    method PublishView(view: Option<NoteView>, env: PublishEnv)
      modifies this`notices, this`uploads
      ensures settings == old(settings) && stored == old(stored) && vault == old(vault)
      ensures view.None? ==> notices == old(notices) + [NoViewToPublish] && uploads == old(uploads)
      ensures view.Some? ==> notices == old(notices)
      ensures view.Some? && !Publishable(settings, env.localImage, Attachment(vault)) ==>
        uploads == old(uploads)
      ensures view.Some? && Publishable(settings, env.localImage, Attachment(vault)) ==>
        uploads == old(uploads) + [Upload(settings, Multipart.Boundary(env.randomText),
                                          Attachment(vault).value,
                                          AdminKey.TokenClaims(AdminKey.SplitKey(settings["adminToken"]).value))]
    {
      if view.None? {
        notices := notices + [NoViewToPublish];
        return;
      }
      var r := PublishPost(view.value, settings, env.render, env.randomText, env.localImage,
                           Attachment(vault));
      if r.Ok? {
        assert Publishable(settings, env.localImage, Attachment(vault));
        Send(r.value.upload);
      } else {
        assert !Publishable(settings, env.localImage, Attachment(vault));
      }
    }

    /** `requestUrl(options)`: the request goes out; its response is not awaited. */
    method Send(request: UploadRequest)
      modifies this`uploads
      ensures uploads == old(uploads) + [request]
    {
      uploads := uploads + [request];
    }

    /**
     * The "Move image under cursor" command on the cursor line `line`: the
     * embedded file under "Private/Screenshots" moves to "Attachments"; with
     * no view, no embed on the line or no such file, nothing moves.
     */
    method MoveImageUnderCursor(hasView: bool, line: string)
      requires Valid()
      modifies this`vault, this`notices
      ensures Valid()
      ensures settings == old(settings) && stored == old(stored) && uploads == old(uploads)
      ensures !hasView ==> vault == old(vault) && notices == old(notices) + [NoActiveView]
      ensures hasView ==> notices == old(notices)
      ensures hasView && PlannedMove(old(vault), line).None? ==> vault == old(vault)
      ensures hasView && PlannedMove(old(vault), line).Some? ==>
        var (from, to) := PlannedMove(old(vault), line).value;
        vault == RenameFile(old(vault), from, to)
    {
      if !hasView {
        notices := notices + [NoActiveView];
        return;
      }
      var name := EmbedName(line);
      if name.None? {
        return;
      }
      var sourcePath := SourcePath(name.value);
      if sourcePath !in vault {
        return;
      }
      var sourceFile := vault[sourcePath];
      RenameKeepsNames(vault, sourcePath, TargetFolder + "/" + sourceFile.name);
      vault := RenameFile(vault, sourcePath, TargetFolder + "/" + sourceFile.name);
    }
  }
}
