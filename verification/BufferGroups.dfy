/**
 Who owns the decoder's frame buffer group: MPP_DEC_SET_EXT_BUF_GROUP in mpp/mpp.c:1364-1419, the
 internal group the decoder creates when it has none (mpp/codec/mpp_dec_normal.c:565-567), and
 the clean-up in mpp/mpp.c:274-277 and 334-337.
 */
module BufferGroups {

  /** A buffer group, with what this decoder has done to it: how often it put it and cleared its
      buffers, and whether its notify callback is installed. */
  class Group {
    var puts: nat
    var clears: nat
    var callback: bool

    constructor ()
      ensures puts == 0 && clears == 0 && !callback
    {
      puts, clears, callback := 0, 0, false;
    }
  }

  datatype Ret = MppOk | MppNok

  class Mpp {
    var initDone: bool
    var frameGroup: Group?
    var externalBufferMode: bool
    /** All groups the decoder created, and all groups the user ever set. */
    ghost var internals: set<Group>
    ghost var externals: set<Group>

    ghost predicate Valid()
      reads this, internals, externals
    {
      && internals !! externals
      && (externalBufferMode ==> frameGroup != null && frameGroup in externals)
      && (!externalBufferMode && frameGroup != null ==> frameGroup in internals)
      && (forall g | g in externals :: g.puts == 0 && (g.callback <==> externalBufferMode && g == frameGroup))
      && (forall g | g in internals :: !g.callback && g.puts == if g == frameGroup then 0 else 1)
    }

    constructor ()
      ensures Valid() && initDone && frameGroup == null && !externalBufferMode
      ensures internals == {} && externals == {}
    {
      initDone, frameGroup, externalBufferMode := true, null, false;
      internals, externals := {}, {};
    }

    /** `mpp_buffer_group_set_callback`. */
    method SetCallback(g: Group, installed: bool)
      modifies g`callback
      ensures g.callback == installed
    {
      g.callback := installed;
    }

    /** `mpp_buffer_group_put`. */
    method PutGroup(g: Group)
      modifies g`puts
      ensures g.puts == old(g.puts) + 1
    {
      g.puts := g.puts + 1;
    }

    /** `mpp_buffer_group_clear`. */
    method ClearGroup(g: Group)
      modifies g`clears
      ensures g.clears == old(g.clears) + 1
    {
      g.clears := g.clears + 1;
    }

    /** MPP_DEC_SET_EXT_BUF_GROUP with no group: an external group is let go, an internal one is
        kept and its buffers are cleared. */
    method SetInternal()
      requires Valid()
      modifies this`frameGroup, this`externalBufferMode, externals`callback, internals`clears
      ensures Valid() && !externalBufferMode
      ensures frameGroup == if old(externalBufferMode) then null else old(frameGroup)
      ensures forall g | g in internals :: g.clears == old(g.clears) + if g == frameGroup then 1 else 0
    {
      if externalBufferMode {
        SetCallback(frameGroup, false);
        frameGroup := null;
      } else if frameGroup != null {
        ClearGroup(frameGroup);
      }
      externalBufferMode := false;
    }

    /** MPP_DEC_SET_EXT_BUF_GROUP with a group of the user's. */
    method SetExternal(param: Group)
      requires Valid() && param !in internals
      requires param !in externals ==> param.puts == 0 && !param.callback
      modifies this, internals, externals, param
      ensures Valid() && externalBufferMode && frameGroup == param
      ensures internals == old(internals) && externals == old(externals) + {param} && initDone == old(initDone)
      ensures forall g | g in internals :: g.clears == old(g.clears)
    {
      if externalBufferMode {
        if frameGroup != param {
          SetCallback(frameGroup, false);
        }
      } else if frameGroup != null {
        PutGroup(frameGroup);
      }
      frameGroup := param;
      SetCallback(frameGroup, true);
      externals := externals + {param};
      externalBufferMode := true;
    }

    /** The control as a whole; before the decoder is initialized it is refused. */
    method SetExtBufGroup(param: Group?) returns (ret: Ret)
      requires Valid()
      requires param != null ==> param !in internals && (param !in externals ==> param.puts == 0 && !param.callback)
      modifies this, internals, externals, if param == null then {} else {param}
      ensures Valid() && internals == old(internals) && initDone == old(initDone)
      ensures ret == if initDone then MppOk else MppNok
      ensures !initDone ==> frameGroup == old(frameGroup) && externalBufferMode == old(externalBufferMode)
      ensures initDone ==> externalBufferMode == (param != null)
      ensures initDone && param != null ==> frameGroup == param
      ensures externals == if initDone && param != null then old(externals) + {param} else old(externals)
      ensures forall g | g in internals ::
                g.clears == old(g.clears) + if initDone && param == null && g == frameGroup then 1 else 0
    {
      if !initDone {
        return MppNok;
      }
      if param == null {
        SetInternal();
      } else {
        SetExternal(param);
      }
      ret := MppOk;
    }

    /** The decoder needs buffers: an internal group is created if there is none. */
    method NeedGroup()
      requires Valid()
      modifies this`frameGroup, this`internals
      ensures Valid() && frameGroup != null
      ensures old(frameGroup) != null ==> frameGroup == old(frameGroup) && internals == old(internals)
      ensures old(frameGroup) == null ==> fresh(frameGroup) && internals == old(internals) + {frameGroup}
    {
      if frameGroup == null {
        var g := new Group();
        frameGroup := g;
        internals := internals + {g};
      }
    }

    /** `mpp_clear`: no external group was ever put, every internal group was put exactly once, and
        no callback is left installed. */
    method Clear()
      requires Valid()
      modifies this`frameGroup, internals, externals
      ensures forall g | g in internals :: g.puts == 1 && !g.callback
      ensures forall g | g in externals :: g.puts == 0 && !g.callback
    {
      if frameGroup != null {
        SetCallback(frameGroup, false);
      }
      if frameGroup != null && !externalBufferMode {
        PutGroup(frameGroup);
        frameGroup := null;
      }
    }
  }

  datatype Action = Control(param: Group?) | Buffers

  /** The groups that a run sets. */
  ghost function GroupsOf(actions: seq<Action>): set<Group> {
    set a | a in actions && a.Control? && a.param != null :: a.param
  }

  /** A whole life of the decoder: whatever controls are given and whenever the decoder needs
      buffers, at the end every internal group has been put exactly once, no external group has
      been put, and no callback is left. */
  method Lifetime(actions: seq<Action>) returns (mpp: Mpp)
    requires forall g | g in GroupsOf(actions) :: g.puts == 0 && !g.callback
    modifies GroupsOf(actions)
    ensures fresh(mpp.internals) && mpp.externals <= GroupsOf(actions)
    ensures forall g | g in mpp.internals :: g.puts == 1 && !g.callback
    ensures forall g | g in GroupsOf(actions) :: g.puts == 0 && !g.callback
  {
    mpp := new Mpp();
    for i := 0 to |actions|
      invariant mpp.Valid() && mpp.initDone && fresh(mpp) && fresh(mpp.internals) && mpp.externals <= GroupsOf(actions)
      invariant forall g | g in GroupsOf(actions) && g !in mpp.externals :: g.puts == 0 && !g.callback
    {
      match actions[i]
      case Control(param) =>
        assert actions[i] in actions;
        assert param != null ==> param in GroupsOf(actions);
        var _ := mpp.SetExtBufGroup(param);
      case Buffers => mpp.NeedGroup();
    }
    mpp.Clear();
  }
}
