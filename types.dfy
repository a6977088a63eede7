/** The values the OCR page works with (frontend/src/app/page.tsx). */
module OcrTypes {

  datatype Option<T> = None | Some(value: T)

  /** A browser file handle: its name, its declared media type and its bytes. */
  datatype File = File(name: string, mimeType: string, bytes: seq<bv8>)

  /** An entry of the upload list (`UploadedFile`): the file, its generated
      id and its display name. */
  datatype UploadedFile = UploadedFile(file: File, id: string, name: string)

  /** One recognised (and possibly user-edited) text (`OCRResult`). */
  datatype OcrResult = OcrResult(fileId: string, fileName: string, text: string, isEdited: bool)

  /** A value of the multipart request body. */
  datatype FormValue = FileValue(file: File) | TextValue(text: string)

  /** One `formData.append(key, value)` field. */
  datatype FormEntry = FormEntry(key: string, value: FormValue)

  /** How the backend call settled. `Failed` covers a non-ok status, a
      transport error, an undecodable body, or an ok body that decodes to
      `null` (the result `map` then throws on `results[index]`): all of them
      end in the same `catch`. `Succeeded` carries, per position of the decoded array, the
      entry's `text` when the entry and its text are present. */
  datatype Outcome = Failed | Succeeded(entries: seq<Option<string>>)

  /** The ids of an upload list, in list order. */
  function FileIds(fs: seq<UploadedFile>): seq<string>
  {
    seq(|fs|, i requires 0 <= i < |fs| => fs[i].id)
  }

  /** The file ids of a result list, in list order. */
  function ResultIds(rs: seq<OcrResult>): seq<string>
  {
    seq(|rs|, i requires 0 <= i < |rs| => rs[i].fileId)
  }
}
