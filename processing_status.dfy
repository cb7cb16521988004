/** The processing record shared by the pipeline, the exports and the status
    panel, and the panel's pure read-outs: the completed count, the progress
    ratio, the status icon and badge, and the per-file detail line. */
module ProcessingStatus {
  import opened Wrappers
  import opened JsText

  /** The four values of `ProcessingFile['status']`. */
  datatype Status = Pending | Processing | Success | Error

  /** One file's record. An optional field of the source is `None` while it
      is `undefined`. */
  datatype ProcessingFile = ProcessingFile(
    id: string,
    name: string,
    status: Status,
    serialNumber: Option<string>,
    errorReason: Option<string>,
    newName: Option<string>)

  /** A record counts as completed once it succeeded or failed. */
  predicate IsCompleted(f: ProcessingFile) {
    f.status == Success || f.status == Error
  }

  /** `completedFiles`: the number of completed records. */
  function CompletedFiles(files: seq<ProcessingFile>): (n: nat)
    ensures n <= |files|
    ensures n == |files| <==> forall i :: 0 <= i < |files| ==> IsCompleted(files[i])
  {
    |Filter(files, IsCompleted)|
  }

  /** Counting completed records from the front: a list whose first `done`
      records are completed and whose others are not has `done` completed. */
  lemma {:induction false} CompletedPrefix(files: seq<ProcessingFile>, done: nat)
    requires done <= |files|
    requires forall i :: 0 <= i < done ==> IsCompleted(files[i])
    requires forall i :: done <= i < |files| ==> !IsCompleted(files[i])
    ensures CompletedFiles(files) == done
    decreases |files|
  {
    if files != [] {
      CompletedPrefix(files[1..], if done == 0 then 0 else done - 1);
    }
  }

  /** A progress value `num / den` percent, kept as a fraction. */
  datatype Ratio = Ratio(num: nat, den: nat)

  /** `progress`: completed over total times one hundred, and zero for an
      empty list, without dividing by zero. */
  function Progress(files: seq<ProcessingFile>): (p: Ratio)
    ensures p.den > 0
    ensures p.num <= 100 * p.den
    ensures files == [] ==> p.num == 0
    ensures files != [] ==> p.num * |files| == 100 * CompletedFiles(files) * p.den
    ensures p.num == 100 * p.den <==>
              files != [] && forall i :: 0 <= i < |files| ==> IsCompleted(files[i])
  {
    if |files| > 0 then Ratio(CompletedFiles(files) * 100, |files|) else Ratio(0, 1)
  }

  /** The icon `getStatusIcon` chooses; `Clock` is the spinning one. */
  datatype Icon = CheckCircle | XCircle | Clock | AlertCircle

  function StatusIcon(s: Status): (icon: Icon)
    ensures icon == CheckCircle <==> s == Success
    ensures icon == XCircle <==> s == Error
    ensures icon == Clock <==> s == Processing
  {
    match s
    case Success => CheckCircle
    case Error => XCircle
    case Processing => Clock
    case _ => AlertCircle
  }

  datatype Badge = Badge(variant: string, text: string)

  /** `getStatusBadge`: one label per status, with `pending` falling to the
      default case. */
  function StatusBadge(s: Status): (b: Badge)
    ensures b.text == "Processado" <==> s == Success
    ensures b.text == "Erro" <==> s == Error
    ensures b.text == "Processando" <==> s == Processing
    ensures b.text == "Aguardando" <==> s == Pending
  {
    match s
    case Success => Badge("success", "Processado")
    case Error => Badge("error", "Erro")
    case Processing => Badge("warning", "Processando")
    case _ => Badge("outline", "Aguardando")
  }

  /** Different statuses never share a badge label. */
  lemma BadgeLabelsDistinct(s: Status, t: Status)
    ensures StatusBadge(s).text == StatusBadge(t).text ==> s == t
  {
  }

  /** The line under a file's name: the new file name for a success that has
      a serial number, the reason for an error that has one. */
  function FileDetail(f: ProcessingFile): (d: Option<string>)
    ensures d.Some? <==>
              || (f.status == Success && f.serialNumber.Some? && f.serialNumber.value != "")
              || (f.status == Error && f.errorReason.Some? && f.errorReason.value != "")
    ensures d.Some? && f.status == Success ==> d.value == "→ " + f.serialNumber.value + ".pdf"
    ensures d.Some? && f.status == Error ==> d.value == f.errorReason.value
  {
    if f.status == Success && f.serialNumber.Some? && f.serialNumber.value != "" then
      Some("→ " + f.serialNumber.value + ".pdf")
    else if f.status == Error && f.errorReason.Some? && f.errorReason.value != "" then
      Some(f.errorReason.value)
    else None
  }

  datatype FileRow = FileRow(key: string, name: string, icon: Icon, detail: Option<string>, badge: Badge)

  datatype Panel = Panel(completed: nat, total: nat, progress: Ratio, message: string, rows: seq<FileRow>)

  /** The line under the progress bar. */
  function StatusMessage(progress: Ratio, isProcessing: bool): (m: string)
    ensures m == "Processamento concluído!" <==> !isProcessing && progress.num == 100 * progress.den
    ensures isProcessing ==> m == "Processando arquivos..."
    ensures !isProcessing && progress.num != 100 * progress.den ==> m == "Pronto para processar"
  {
    if isProcessing then "Processando arquivos..."
    else if progress.num == 100 * progress.den then "Processamento concluído!"
    else "Pronto para processar"
  }

  function Row(f: ProcessingFile): (r: FileRow)
    ensures r.key == f.id && r.name == f.name
    ensures r.icon == CheckCircle <==> f.status == Success
    ensures r.badge.text == "Processado" <==> f.status == Success
    ensures r.badge.text == "Erro" <==> f.status == Error
    ensures r.detail.Some? <==>
              || (f.status == Success && f.serialNumber.Some? && f.serialNumber.value != "")
              || (f.status == Error && f.errorReason.Some? && f.errorReason.value != "")
    ensures r.detail.Some? && f.status == Success ==> r.detail.value == "→ " + f.serialNumber.value + ".pdf"
  {
    FileRow(f.id, f.name, StatusIcon(f.status), FileDetail(f), StatusBadge(f.status))
  }

  /** The `ProcessingStatus` component: nothing for an empty list, otherwise
      the "completed of total" header, the progress, the message and one row
      per record in list order. */
  function RenderStatus(files: seq<ProcessingFile>, isProcessing: bool): (v: Option<Panel>)
    ensures v.None? <==> files == []
    ensures v.Some? ==>
              && v.value.total == |files|
              && v.value.completed == CompletedFiles(files) <= |files|
              && |v.value.rows| == |files|
              && (forall i :: 0 <= i < |files| ==>
                    v.value.rows[i].key == files[i].id && v.value.rows[i].name == files[i].name &&
                    v.value.rows[i].badge == StatusBadge(files[i].status) &&
                    v.value.rows[i].icon == StatusIcon(files[i].status) &&
                    v.value.rows[i].detail == FileDetail(files[i]))
    ensures v.Some? ==> v.value.progress == Progress(files)
    ensures v.Some? ==> v.value.message == StatusMessage(v.value.progress, isProcessing)
    ensures v.Some? ==>
              (v.value.message == "Processamento concluído!" <==>
                 !isProcessing && forall i :: 0 <= i < |files| ==> IsCompleted(files[i]))
  {
    if |files| == 0 then None
    else
      var progress := Progress(files);
      Some(Panel(CompletedFiles(files), |files|, progress,
                 StatusMessage(progress, isProcessing), Map(Row, files)))
  }
}
