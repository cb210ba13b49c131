/** `DiskScheduler`: the queue and its worker as objects, each method proved to be steps of `Scheduler`. */
module DiskScheduler {
  import opened Common
  import opened Scheduler
  import opened DiskManager
  import Disk

  class DiskScheduler {
    var queue: seq<Message>
    var answers: seq<Answer>
    var status: Status
    const diskManager: DiskManager

    ghost function Model(): (s: System)
      reads this, diskManager
    {
      System(queue, Worker(diskManager.Model(), answers, status))
    }

    /** Nothing is waiting, and the disk below is in order. */
    ghost predicate Idle()
      reads this, diskManager
    {
      queue == [] && status == Running && Disk.DiskOk(diskManager.Model())
    }

    ghost function Pages(): (m: Store)
      reads this, diskManager
    {
      Disk.Contents(diskManager.Model())
    }

    constructor (diskManager: DiskManager)
      ensures this.diskManager == diskManager
      ensures Model() == System([], Worker(diskManager.Model(), [], Running))
    {
      this.diskManager := diskManager;
      queue, answers, status := [], [], Running;
    }

    /** `ok` is false where the program panics: the worker has stopped. */
    method Schedule(request: Request) returns (ok: bool)
      modifies this
      ensures Model() == Next(old(Model()), Send(Job(request)))
      ensures ok <==> old(status) == Running
    {
      ok := status == Running;
      if ok {
        queue := queue + [Job(request)];
      }
    }

    /** One turn of the worker's loop; on an empty queue the worker only waits. Nothing is promised of the
        disk once the worker has crashed. */
    method Turn()
      modifies this, diskManager
      ensures status == Next(old(Model()), Work).worker.status
      ensures status != Crashed ==> Model() == Next(old(Model()), Work)
    {
      if status != Running || queue == [] {
        return;
      }
      var message := queue[0];
      queue := queue[1..];
      match message
      case Stop =>
        status := Stopped;
      case Job(request) =>
        var data := new byte[|request.data|](i requires 0 <= i < |request.data| => request.data[i]);
        assert data[..] == request.data;
        var ok := true;
        match request.kind {
          case ReadPage => ok := diskManager.ReadPage(request.pageId, data);
          case WritePage => ok := diskManager.WritePage(request.pageId, data);
          case DeletePage => diskManager.DeletePage(request.pageId);
        }
        if ok {
          answers := answers + [Answer(request.promise, data[..])];
        } else {
          status := Crashed;
        }
    }

    /** A client that sends a request and waits for its answer while nobody else does: the queue and the
        worker then add up to a direct call on the map of pages. */
    method Call(kind: RequestType, pageId: PageId, data: seq<byte>) returns (reply: seq<byte>)
      requires Idle() && Admitted(Pages(), Request(kind, |answers|, data, pageId))
      modifies this, diskManager
      ensures Idle() && (Pages(), reply) == Plain(old(Pages()), Request(kind, |old(answers)|, data, pageId))
    {
      var request := Request(kind, |answers|, data, pageId);
      ghost var end := OneCall(Model().worker, request);
      var _ := Schedule(request);
      Turn();
      reply := answers[|answers| - 1].data;
    }

    /** `Drop`: the worker stops once it has handled everything sent before. A worker that has left its loop
        already is not sent anything, and nothing changes. */
    method Drop()
      modifies this, diskManager
      ensures status == Serve(old(Model()).worker, old(queue) + [Stop]).status != Running
      ensures status != Crashed ==> Model().worker == Serve(old(Model()).worker, old(queue) + [Stop])
      ensures old(status) != Running ==> Model() == old(Model())
    {
      ghost var w, ms := Model().worker, queue + [Stop];
      if status != Running {
        ServeHalted(w, ms);
        return;
      }
      queue := queue + [Stop];
      while status == Running
        invariant status == Running ==> queue != [] && queue[|queue| - 1] == Stop
        invariant status == Running ==> Serve(Model().worker, queue) == Serve(w, ms)
        invariant status == Stopped ==> Model().worker == Serve(w, ms)
        invariant status == Crashed ==> Serve(w, ms).status == Crashed
        decreases status == Running, |queue|
      {
        ghost var s := Model();
        Turn();
        if status != Running {
          ServeHalted(Handle(s.worker, s.queue[0]), s.queue[1..]);
        }
      }
    }
  }
}
