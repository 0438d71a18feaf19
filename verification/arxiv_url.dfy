/**
 * The arXiv PDF address that every service builds around an id: the fixed prefix and the
 * ".pdf" extension, shared by scripts/mineru_client.py, scripts/server.py, api/server.js
 * and api/index.js.
 */
module ArxivUrl {
  const ArxivPdfBase: string := "https://arxiv.org/pdf/"
  const PdfExtension: string := ".pdf"
}
