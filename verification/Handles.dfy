/**
 Handles on devices: hs_device_open and hs_handle_close of src/device.c, with the open and the
 two-phase close of src/device_win32.c.  What the system calls return is a parameter.
 */
module Handles {
  import opened Wrappers
  import opened Registry
  import opened Monitor

  class Handle {
    var dev: Device?
    var pendingThread: nat  // thread of the read request in flight, 0 when there is none
    ghost var freed: bool

    constructor ()
      ensures dev == null && pendingThread == 0 && !freed
    {
      dev, pendingThread, freed := null, 0, false;
    }
  }

  /** How far open() gets: no memory for the handle, an error after the handle exists, or success. */
  datatype Attempt = NoMemory | Fails(error: int) | Succeeds(pending: bool)

  /** A failed open leaves the count as it was; a successful one takes exactly one reference. */
  method OpenDevice(dev: Device, attempt: Attempt, thread: nat) returns (r: int, h: Handle?)
    requires !dev.freed && 0 < dev.refcount && 0 < thread
    requires attempt.Fails? ==> attempt.error < 0
    modifies dev
    ensures dev.hnode == old(dev.hnode) && dev.state == old(dev.state) && dev.monitor == old(dev.monitor) && !dev.freed
    ensures r == 0 <==> dev.state == Online && attempt.Succeeds?
    ensures dev.state != Online ==> r == ERROR_NOT_FOUND
    ensures dev.state == Online && attempt.NoMemory? ==> r == ERROR_MEMORY
    ensures dev.state == Online && attempt.Fails? ==> r == attempt.error
    ensures r != 0 ==> r < 0 && h == null && dev.refcount == old(dev.refcount)
    ensures r == 0 ==> h != null && fresh(h) && h.dev == dev && !h.freed && dev.refcount == old(dev.refcount) + 1
    ensures r == 0 ==> h.pendingThread == if attempt.pending then thread else 0
  {
    if dev.state != Online {
      return ERROR_NOT_FOUND, null;
    }
    if attempt.NoMemory? {
      return ERROR_MEMORY, null;
    }
    var handle := new Handle();
    DeviceRef(dev);
    handle.dev := dev;
    if attempt.Fails? {
      var done := CloseHandle(handle, true, thread);
      return attempt.error, null;
    }
    if attempt.pending {
      handle.pendingThread := thread;
    }
    return 0, handle;
  }

  /**
   The reference goes at once; the handle itself stays when a read is pending that cannot be
   cancelled from this thread, and its cleanup is left to another one.
   */
  method CloseHandle(h: Handle, cancelIoEx: bool, thread: nat) returns (done: bool)
    requires !h.freed && (h.dev != null ==> !h.dev.freed && 0 < h.dev.refcount)
    modifies h, if h.dev == null then {} else {h.dev}
    ensures h.dev == null && (h.freed <==> done)
    ensures done <==> old(h.pendingThread) == 0 || cancelIoEx || old(h.pendingThread) == thread
    ensures var d := old(h.dev); d != null ==>
              && d.refcount == old(h.dev.refcount) - 1 && (d.freed <==> d.refcount == 0)
              && d.hnode == old(h.dev.hnode) && d.state == old(h.dev.state) && d.monitor == old(h.dev.monitor)
  {
    DeviceUnref(h.dev);
    h.dev := null;

    if h.pendingThread != 0 && !cancelIoEx && h.pendingThread != thread {
      return false;
    }

    h.freed := true;
    return true;
  }

  /** The second phase, on the cleanup thread: it touches no device at all. */
  method CleanupThread(h: Handle, stillPending: bool, thread: nat)
    requires !h.freed && h.dev == null
    modifies h
    ensures h.dev == null && (h.freed <==> !stillPending)
  {
    if stillPending {
      return;  // the handle leaks, on purpose
    }
    h.pendingThread := 0;
    var done := CloseHandle(h, false, thread);
  }

  /** Opening and closing again, in one phase or two, leaves the device's count as it was. */
  method OpenThenClose(dev: Device, attempt: Attempt, opener: nat, closer: nat, cancelIoEx: bool)
    requires !dev.freed && 0 < dev.refcount && 0 < opener
    requires attempt.Fails? ==> attempt.error < 0
    modifies dev
    ensures dev.refcount == old(dev.refcount) && !dev.freed
  {
    var r, h := OpenDevice(dev, attempt, opener);
    if r == 0 {
      var done := CloseHandle(h, cancelIoEx, closer);
      if !done {
        CleanupThread(h, false, closer);
      }
    }
  }
}
