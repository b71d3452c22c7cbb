/**
 * The client's and the server's upload checks side by side: the size caps
 * agree, the type checks do not (MIME type against file-name extension).
 */
module UploadAgreement {
  import opened Common
  import opened Text
  import UploadForm
  import PrescriptionRoutes

  /** Both sides accept a file of exactly 5 MiB and reject anything larger. */
  lemma SizeChecksAgree(size: int)
    ensures size <= UploadForm.MaxFileSize <==> size <= PrescriptionRoutes.FileSizeLimit
    ensures UploadForm.MaxFileSize == 5 * 1024 * 1024
  {
  }

  lemma GifExtension()
    ensures Ext("scan.gif") == ".gif"
    ensures Lower(".gif") == ".gif"
  {
    var name := "scan.gif";
    assert PrescriptionRoutes.EndsWith(name, ".gif") by {
      assert name[|name| - 4..] == ".gif";
    }
    PrescriptionRoutes.ExtIsDottedSuffix(name, ".gif");
    var low := Lower(".gif");
    assert low[0] == '.' && low[1] == 'g' && low[2] == 'i' && low[3] == 'f';
  }

  lemma PdfExtension()
    ensures Ext("scan.PDF") == ".PDF"
    ensures Lower(".PDF") == ".pdf"
  {
    var name := "scan.PDF";
    assert PrescriptionRoutes.EndsWith(name, ".PDF") by {
      assert name[|name| - 4..] == ".PDF";
    }
    PrescriptionRoutes.ExtIsDottedSuffix(name, ".PDF");
    var low := Lower(".PDF");
    assert low[0] == '.' && low[1] == 'p' && low[2] == 'd' && low[3] == 'f';
  }

  /** A PNG image saved under a `.gif` name passes the page's check and is
      refused by the server. */
  lemma ClientAcceptsServerRefuses()
    ensures UploadForm.Acceptable(FileInfo("scan.gif", "image/png", 1000))
    ensures !PrescriptionRoutes.AcceptsFileName("scan.gif")
  {
    GifExtension();
    var all := PrescriptionRoutes.AllowedExtensions;
    assert ".gif" != all[0] && ".gif" != all[1] && ".gif" != all[2] && ".gif" != all[3];
    assert "image/png" == UploadForm.AllowedTypes[2];
  }

  /** A PDF the browser reports with a generic MIME type is refused by the
      page, though the server would store it. */
  lemma ServerAcceptsClientRefuses()
    ensures !UploadForm.Acceptable(FileInfo("scan.PDF", "application/octet-stream", 1000))
    ensures PrescriptionRoutes.AcceptsFileName("scan.PDF")
  {
    PdfExtension();
    assert ".pdf" == PrescriptionRoutes.AllowedExtensions[0];
  }
}
