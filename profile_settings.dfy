/**
 * ProfileSettingsPanel.tsx: the profile sheet.  It is filled from the
 * current profile, validates the username and the initials, and on save
 * first uploads a newly chosen photo or removes the stored one, then saves
 * the rebuilt profile.  The upload, remove and save hooks are calls on the
 * `Remote`; reading the file's bytes is not modelled, so a new photo is the
 * blob built from the selected file.
 */
module ProfileSettings {
  import opened Wrappers
  import opened Backend
  import opened JsStrings
  import opened Notify

  datatype AvatarMode = Dental | Photo

  /** `initialsError`: something was typed, but its `length` (in UTF-16 code units) is not two or three. */
  predicate InitialsError(initials: string) {
    Utf16Length(initials) > 0 && (Utf16Length(initials) < 2 || Utf16Length(initials) > 3)
  }

  /** `canSave`: a username that is not blank, and initials of `length` two or three (counted before trimming). */
  predicate CanSave(username: string, initials: string) {
    Trim(username) != [] && 2 <= Utf16Length(initials) <= 3
  }

  /** The error is shown only when saving is also blocked; empty initials block saving without showing it. */
  lemma InitialsErrorBlocksSave(username: string, initials: string)
    ensures InitialsError(initials) ==> !CanSave(username, initials)
    ensures initials == [] ==> !InitialsError(initials) && !CanSave(username, initials)
    ensures !IsBlank(username) ==> (CanSave(username, initials) <==> initials != [] && !InitialsError(initials))
  {
  }

  /** Initials padded with a space pass the length check and are saved trimmed to one character. */
  lemma PaddedInitialsSaveShort()
    ensures CanSave("Ann", " A")
    ensures |AsciiUpper(Trim(" A"))| == 1
  {
    assert IsJsWhitespace(' ') && !IsJsWhitespace('A');
    assert LeadingWs(" A") == 1;
    assert TrailingWs(" A") == 0;
    assert Trim(" A") == " A"[1..2];
    Utf16LengthBasicPlane(" A");
  }

  /** `length` counts code units: a single character above U+FFFF is two, so on its own it passes the check. */
  lemma AstralInitialPasses(username: string, c: char)
    requires !IsBlank(username) && c as int >= 0x1_0000
    ensures CanSave(username, [c]) && !InitialsError([c])
  {
    assert [c][1..] == [];
  }

  /** The photo the saved profile carries: a new file in photo mode, nothing in dental mode with a stored photo, else the stored one. */
  function SavedPhoto(mode: AvatarMode, photoFile: Option<File>, currentPhoto: Option<Blob>): Option<Blob> {
    if mode == Photo && photoFile.Some? then Some(FromFile(photoFile.value))
    else if mode == Dental && currentPhoto.Some? then None
    else currentPhoto
  }

  /** The call made before saving: an upload of the new file, a removal of the stored photo, or none. */
  function PhotoCall(mode: AvatarMode, photoFile: Option<File>, currentPhoto: Option<Blob>): Option<Call> {
    if mode == Photo && photoFile.Some? then Some(UploadPhotoCall(FromFile(photoFile.value)))
    else if mode == Dental && currentPhoto.Some? then Some(RemovePhotoCall)
    else None
  }

  /** A profile saved from dental mode never has a photo; one saved from photo mode loses none. */
  lemma SavedPhotoByMode(photoFile: Option<File>, currentPhoto: Option<Blob>)
    ensures SavedPhoto(Dental, photoFile, currentPhoto).None?
    ensures SavedPhoto(Photo, photoFile, currentPhoto).Some? <==> photoFile.Some? || currentPhoto.Some?
    ensures photoFile.None? ==> SavedPhoto(Photo, photoFile, currentPhoto) == currentPhoto
  {
  }

  /** The photo changes exactly when a call is made for it, and the call says how. */
  lemma PhotoCallMatchesSavedPhoto(mode: AvatarMode, photoFile: Option<File>, currentPhoto: Option<Blob>)
    ensures PhotoCall(mode, photoFile, currentPhoto).None? ==> SavedPhoto(mode, photoFile, currentPhoto) == currentPhoto
    ensures PhotoCall(mode, photoFile, currentPhoto) == Some(RemovePhotoCall) ==> SavedPhoto(mode, photoFile, currentPhoto).None?
    ensures var c := PhotoCall(mode, photoFile, currentPhoto);
      c.Some? && c.value.UploadPhotoCall? ==> SavedPhoto(mode, photoFile, currentPhoto) == Some(c.value.blob)
  {
  }

  class Panel {
    var username: string
    var initials: string
    var avatarMode: AvatarMode
    var selectedAvatar: int
    var photoFile: Option<File>
    /** Set once `onClose` has been called. */
    var closed: bool

    constructor ()
      ensures username == [] && initials == [] && avatarMode == Dental && selectedAvatar == 0
      ensures photoFile.None? && !closed
    {
      username := [];
      initials := [];
      avatarMode := Dental;
      selectedAvatar := 0;
      photoFile := None;
      closed := false;
    }

    /** The effect on `currentProfile`: copies the fields in, and picks photo mode exactly when a photo is stored. */
    method Load(currentProfile: Option<UserProfile>)
      modifies this
      ensures currentProfile.None? ==>
        username == old(username) && initials == old(initials) && selectedAvatar == old(selectedAvatar)
        && avatarMode == old(avatarMode)
      ensures currentProfile.Some? ==>
        var p := currentProfile.value;
        && username == p.username && initials == p.initials.GetOr([]) && selectedAvatar == p.avatar
        && (avatarMode == Photo <==> p.profilePhoto.Some?)
      ensures photoFile == old(photoFile) && closed == old(closed)
    {
      if currentProfile.Some? {
        var p := currentProfile.value;
        username := p.username;
        initials := p.initials.GetOr([]);
        selectedAvatar := p.avatar;
        avatarMode := if p.profilePhoto.Some? then Photo else Dental;
      }
    }

    /** The initials input, which upper-cases what is typed. */
    method EnterInitials(value: string)
      modifies this
      ensures initials == AsciiUpper(value)
      ensures username == old(username) && avatarMode == old(avatarMode) && selectedAvatar == old(selectedAvatar)
      ensures photoFile == old(photoFile) && closed == old(closed)
    {
      initials := AsciiUpper(value);
    }

    /**
     * `handleSave`.  Nothing happens unless `canSave` holds and a profile is
     * loaded; a failing photo call stops before the save.
     */
    method Save(currentProfile: Option<UserProfile>, remote: Remote) returns (report: Report)
      modifies this, remote
      ensures username == old(username) && initials == old(initials) && avatarMode == old(avatarMode)
      ensures selectedAvatar == old(selectedAvatar) && photoFile == old(photoFile)
      ensures !CanSave(username, initials) || currentProfile.None? ==>
        report == NoReport && closed == old(closed)
        && remote.calls == old(remote.calls) && remote.replies == old(remote.replies)
      ensures CanSave(username, initials) && currentProfile.Some? ==>
        var current := currentProfile.value;
        var pre := PhotoCall(avatarMode, photoFile, current.profilePhoto);
        var saved := UserProfile(Trim(username), Some(AsciiUpper(Trim(initials))), selectedAvatar,
                                 SavedPhoto(avatarMode, photoFile, current.profilePhoto), current.role);
        var first := NextReply(old(remote.replies));
        && (pre.Some? && first.Rejected? ==>
              && remote.calls == old(remote.calls) + [pre.value] && remote.replies == RestOf(old(remote.replies))
              && report == ErrorValue(first.error) && closed == old(closed))
        && (pre.Some? && first.Resolved? ==>
              var second := NextReply(RestOf(old(remote.replies)));
              && remote.calls == old(remote.calls) + [pre.value, SaveProfileCall(saved)]
              && remote.replies == RestOf(RestOf(old(remote.replies)))
              && (second.Resolved? ==> report == SuccessKey("common.success") && closed)
              && (second.Rejected? ==> report == ErrorValue(second.error) && closed == old(closed)))
        && (pre.None? ==>
              && remote.calls == old(remote.calls) + [SaveProfileCall(saved)]
              && remote.replies == RestOf(old(remote.replies))
              && (first.Resolved? ==> report == SuccessKey("common.success") && closed)
              && (first.Rejected? ==> report == ErrorValue(first.error) && closed == old(closed)))
    {
      if !CanSave(username, initials) || currentProfile.None? {
        return NoReport;
      }
      var current := currentProfile.value;
      var profilePhotoBlob := current.profilePhoto;
      if avatarMode == Photo && photoFile.Some? {
        var blob := FromFile(photoFile.value);
        var r := remote.Invoke(UploadPhotoCall(blob));
        if r.Rejected? {
          return ErrorValue(r.error);
        }
        profilePhotoBlob := Some(blob);
      }
      if avatarMode == Dental && current.profilePhoto.Some? {
        var r := remote.Invoke(RemovePhotoCall);
        if r.Rejected? {
          return ErrorValue(r.error);
        }
        profilePhotoBlob := None;
      }
      var profile := UserProfile(Trim(username), Some(AsciiUpper(Trim(initials))), selectedAvatar, profilePhotoBlob, current.role);
      var r := remote.Invoke(SaveProfileCall(profile));
      if r.Rejected? {
        return ErrorValue(r.error);
      }
      report := SuccessKey("common.success");
      closed := true;
    }

    /** `handleRemovePhoto`: after a successful removal the chosen file is dropped and dental mode selected. */
    method RemovePhoto(remote: Remote) returns (report: Report)
      modifies this, remote
      ensures remote.calls == old(remote.calls) + [RemovePhotoCall] && remote.replies == RestOf(old(remote.replies))
      ensures username == old(username) && initials == old(initials) && selectedAvatar == old(selectedAvatar)
      ensures closed == old(closed)
      ensures NextReply(old(remote.replies)).Resolved? ==>
        report == SuccessKey("profile.photoRemoved") && photoFile.None? && avatarMode == Dental
      ensures NextReply(old(remote.replies)).Rejected? ==>
        report == ErrorValue(NextReply(old(remote.replies)).error)
        && photoFile == old(photoFile) && avatarMode == old(avatarMode)
    {
      var r := remote.Invoke(RemovePhotoCall);
      if r.Rejected? {
        return ErrorValue(r.error);
      }
      photoFile := None;
      avatarMode := Dental;
      report := SuccessKey("profile.photoRemoved");
    }
  }
}
